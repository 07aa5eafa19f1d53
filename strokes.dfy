/** The brush of main.js (`fillCircles` with `setCell`, `drawCircle` and
    `drawLine`) as value-level definitions: the per-cell write rule, the
    cells a disc covers, the centres the line stepping visits, and what a
    grid looks like once a set of cells has been painted. */
module Strokes {
  import opened Cells

  /** Number of disc centres `drawLine` stamps at most. */
  const MAX_CENTRES: nat := 20

  /** Brush radius `stepSimulation` passes to `fillCircles`. */
  const BRUSH_RADIUS: int := 3

  /** `Math.floor(p / CELL_SIZE)`: the grid cell under display pixel `p`. */
  function CellOf(p: int): (c: int)
    ensures CELL_SIZE * c <= p < CELL_SIZE * (c + 1)
  {
    p / CELL_SIZE
  }

  /** The material `setCell` leaves in a cell holding `cur` when painting
      `brush`: AIR (erasing) and WALL overwrite anything, SAND and WATER only
      fill AIR. */
  function BrushWrite(cur: Byte, brush: Byte): (r: Byte)
    ensures r == brush || r == cur
    ensures brush == AIR || brush == WALL ==> r == brush
    ensures cur == AIR ==> r == brush
    ensures brush != AIR && brush != WALL && cur != AIR ==> r == cur
  {
    if cur == AIR || brush == AIR || brush == WALL then brush else cur
  }

  /** Painting the same brush twice is painting it once. */
  lemma BrushWriteIdempotent(cur: Byte, brush: Byte)
    ensures BrushWrite(BrushWrite(cur, brush), brush) == BrushWrite(cur, brush)
  {
  }

  /** Absolute value, `Math.abs`. */
  function Abs(n: int): (a: nat)
    ensures a == n || a == -n
  {
    if n < 0 then -n else n
  }

  /** An offset `drawCircle` stamps: both coordinates in `[-r, r)` and
      within distance `r` of the centre. */
  predicate InOffset(a: int, c: int, r: int)
  {
    -r <= a < r && -r <= c < r && a * a + c * c <= r * r
  }

  /** The flat index of the cell at offset `(a, c)` from `(x0, y0)`. Columns
      outside `[0, w)` are not rejected: they run into the neighbouring row. */
  function DiscCell(x0: int, y0: int, w: int, a: int, c: int): int
  {
    (x0 + a) + (y0 + c) * w
  }

  /** Offset `(a, c)` comes before `(pa, pc)` in the order of the two loops
      of `drawCircle` (outer on the column offset, inner on the row offset). */
  predicate Before(a: int, c: int, pa: int, pc: int)
  {
    a < pa || (a == pa && c < pc)
  }

  /** Flat index `i` is stamped by the disc at `(x0, y0)` before the loops
      reach offset `(pa, pc)`. */
  ghost predicate StampedBefore(i: int, x0: int, y0: int, r: int, w: int, pa: int, pc: int)
  {
    exists a, c {:trigger DiscCell(x0, y0, w, a, c)} ::
      InOffset(a, c, r) && Before(a, c, pa, pc) && i == DiscCell(x0, y0, w, a, c)
  }

  /** Flat index `i` is covered by the disc of radius `r` at `(x0, y0)`. */
  ghost predicate InDisc(i: int, x0: int, y0: int, r: int, w: int)
  {
    exists a, c {:trigger DiscCell(x0, y0, w, a, c)} :: InOffset(a, c, r) && i == DiscCell(x0, y0, w, a, c)
  }

  /** The cells of a grid of `n` cells the disc at `(x0, y0)` covers. */
  ghost function DiscCells(x0: int, y0: int, r: int, w: int, n: nat): (s: set<int>)
    ensures forall i :: i in s <==> 0 <= i < n && InDisc(i, x0, y0, r, w)
  {
    set i | 0 <= i < n && InDisc(i, x0, y0, r, w)
  }

  /** The cells of a grid of `n` cells stamped before the loops of
      `drawCircle` reach offset `(pa, pc)`. */
  ghost function StampedCells(x0: int, y0: int, r: int, w: int, n: nat, pa: int, pc: int): (s: set<int>)
    ensures forall i :: i in s <==> 0 <= i < n && StampedBefore(i, x0, y0, r, w, pa, pc)
  {
    set i | 0 <= i < n && StampedBefore(i, x0, y0, r, w, pa, pc)
  }

  /** Before the first offset nothing is stamped. */
  lemma StampedNone(x0: int, y0: int, r: int, w: int, n: nat)
    ensures StampedCells(x0, y0, r, w, n, -r, -r) == {}
  {

  }

  /** Once the loops have passed every column offset, the stamped cells are
      exactly the disc. */
  lemma StampedAll(x0: int, y0: int, r: int, w: int, n: nat, pa: int)
    requires r <= pa
    ensures StampedCells(x0, y0, r, w, n, pa, -r) == DiscCells(x0, y0, r, w, n)
  {
    forall i | InDisc(i, x0, y0, r, w) ensures StampedBefore(i, x0, y0, r, w, pa, -r) {
      var a, c :| InOffset(a, c, r) && i == DiscCell(x0, y0, w, a, c);
      assert Before(a, c, pa, -r);
    }
  }

  /** Finishing an inner loop (row offsets up to `r`) is starting the next
      column offset. */
  lemma StampedNextColumn(x0: int, y0: int, r: int, w: int, n: nat, a: int)
    ensures StampedCells(x0, y0, r, w, n, a, r) == StampedCells(x0, y0, r, w, n, a + 1, -r)
  {
    forall i | StampedBefore(i, x0, y0, r, w, a + 1, -r) ensures StampedBefore(i, x0, y0, r, w, a, r) {
      var a', c' :| InOffset(a', c', r) && Before(a', c', a + 1, -r) && i == DiscCell(x0, y0, w, a', c');
      assert Before(a', c', a, r);
    }
  }

  /** One more offset `(a, c)` of the inner loop adds its cell when it lies
      in the disc and in the grid. */
  lemma StampedNextRow(x0: int, y0: int, r: int, w: int, n: nat, a: int, c: int)
    requires -r <= a < r && -r <= c < r
    ensures var id := DiscCell(x0, y0, w, a, c);
      StampedCells(x0, y0, r, w, n, a, c + 1) ==
      StampedCells(x0, y0, r, w, n, a, c) + (if a * a + c * c <= r * r && 0 <= id < n then {id} else {})
  {
    forall i | StampedBefore(i, x0, y0, r, w, a, c + 1)
      ensures StampedBefore(i, x0, y0, r, w, a, c) || (InOffset(a, c, r) && i == DiscCell(x0, y0, w, a, c))
    {
      var a', c' :| InOffset(a', c', r) && Before(a', c', a, c + 1) && i == DiscCell(x0, y0, w, a', c');
      if !(a' == a && c' == c) {
        assert Before(a', c', a, c);
      }
    }
    forall i | StampedBefore(i, x0, y0, r, w, a, c) ensures StampedBefore(i, x0, y0, r, w, a, c + 1) {
      var a', c' :| InOffset(a', c', r) && Before(a', c', a, c) && i == DiscCell(x0, y0, w, a', c');
      assert Before(a', c', a, c + 1);
    }
    if InOffset(a, c, r) {
      assert Before(a, c, a, c + 1);
      assert StampedBefore(DiscCell(x0, y0, w, a, c), x0, y0, r, w, a, c + 1);
    }
  }

  /** The grid `m` with velocities `v` is `m0`, `v0` with exactly the cells
      of `cells` painted with `brush`: each gets `BrushWrite` of its old
      material and velocity 0; every other cell is unchanged. */
  ghost predicate Painted(m0: seq<Byte>, v0: seq<Byte>, m: seq<Byte>, v: seq<Byte>, brush: Byte, cells: set<int>)
  {
    |m| == |m0| && |v0| == |m0| && |v| == |m0| &&
    forall i :: 0 <= i < |m0| ==>
      m[i] == (if i in cells then BrushWrite(m0[i], brush) else m0[i]) &&
      v[i] == (if i in cells then 0 else v0[i])
  }

  /** Painting `s1` and then `s2` with the same brush is painting `s1 + s2`:
      a cell painted twice ends as if painted once. */
  lemma {:induction false} PaintedTwice(m0: seq<Byte>, v0: seq<Byte>, m1: seq<Byte>, v1: seq<Byte>,
                                        m2: seq<Byte>, v2: seq<Byte>, brush: Byte, s1: set<int>, s2: set<int>)
    requires Painted(m0, v0, m1, v1, brush, s1) && Painted(m1, v1, m2, v2, brush, s2)
    ensures Painted(m0, v0, m2, v2, brush, s1 + s2)
  {
    forall i | 0 <= i < |m0|
      ensures m2[i] == (if i in s1 + s2 then BrushWrite(m0[i], brush) else m0[i])
    {
      BrushWriteIdempotent(m0[i], brush);
    }
  }

  /** Painting nothing changes nothing. */
  lemma PaintedNothing(m: seq<Byte>, v: seq<Byte>, brush: Byte)
    requires |v| == |m|
    ensures Painted(m, v, m, v, brush, {})
  {
  }

  /** The state of `drawLine`'s loop: the current centre, the error term,
      and the number of centres stamped so far. */
  datatype Pen = Pen(x: int, y: int, err: int, done: nat)

  /** One step of the integer line stepping: `e2 = 2 * err`, then the column
      step if `e2 > -dy` and the row step if `e2 < dx`, both tested on the same
      `e2`; one more centre has been stamped. */
  function Advance(p: Pen, dx: int, dy: int, sx: int, sy: int): (q: Pen)
    ensures q.x == p.x || q.x == p.x + sx
    ensures q.y == p.y || q.y == p.y + sy
    ensures q.done == p.done + 1
  {
    var e2 := 2 * p.err;
    var p1 := if e2 > -dy then p.(x := p.x + sx, err := p.err - dy) else p;
    var p2 := if e2 < dx then p1.(y := p1.y + sy, err := p1.err + dx) else p1;
    p2.(done := p.done + 1)
  }

  /** The centres stamped from pen `p`: none once `MAX_CENTRES` have been
      stamped, else the pen's own, then stop if it is the end `(x1, y1)`,
      else step. */
  function Centres(p: Pen, x1: int, y1: int, dx: int, dy: int, sx: int, sy: int): (cs: seq<(int, int)>)
    ensures cs == [] || p.done + |cs| <= MAX_CENTRES
    decreases MAX_CENTRES - p.done
  {
    if p.done >= MAX_CENTRES then []
    else [(p.x, p.y)] + (if p.x == x1 && p.y == y1 then [] else Centres(Advance(p, dx, dy, sx, sy), x1, y1, dx, dy, sx, sy))
  }

  /** Direction of a coordinate step: `(a < b) ? 1 : -1`. */
  function Sign(a: int, b: int): int
  {
    if a < b then 1 else -1
  }

  /** The centres `drawLine(x0, y0, x1, y1)` stamps. */
  function LineCentres(x0: int, y0: int, x1: int, y1: int): seq<(int, int)>
  {
    Centres(Pen(x0, y0, Abs(x1 - x0) - Abs(y1 - y0), 0), x1, y1,
            Abs(x1 - x0), Abs(y1 - y0), Sign(x0, x1), Sign(y0, y1))
  }

  /** No centre of `cs` but the last is the end `(x1, y1)`. */
  predicate EndsLast(cs: seq<(int, int)>, x1: int, y1: int)
  {
    forall k :: 0 <= k < |cs| - 1 ==> cs[k] != (x1, y1)
  }

  /** Each step of `cs` moves the column by 0 or `sx` and the row by 0 or `sy`. */
  predicate Steps(cs: seq<(int, int)>, sx: int, sy: int)
  {
    forall k :: 0 <= k < |cs| - 1 ==>
      (cs[k + 1].0 == cs[k].0 || cs[k + 1].0 == cs[k].0 + sx) &&
      (cs[k + 1].1 == cs[k].1 || cs[k + 1].1 == cs[k].1 + sy)
  }

  /** Putting a centre other than the end in front of `rest`, one step away
      from its first centre, keeps `EndsLast` and `Steps`. */
  lemma ConsSteps(h: (int, int), rest: seq<(int, int)>, x1: int, y1: int, sx: int, sy: int)
    requires h != (x1, y1) && EndsLast(rest, x1, y1) && Steps(rest, sx, sy)
    requires rest == [] ||
             ((rest[0].0 == h.0 || rest[0].0 == h.0 + sx) && (rest[0].1 == h.1 || rest[0].1 == h.1 + sy))
    ensures EndsLast([h] + rest, x1, y1) && Steps([h] + rest, sx, sy)
  {
    var cs := [h] + rest;
    forall k | 0 < k < |cs|
      ensures cs[k] == rest[k - 1]
    {
    }
  }

  /** The centres stamped from pen `p` start at the pen unless the cap is
      already reached, and stop short of `MAX_CENTRES` only by reaching the
      end `(x1, y1)`. */
  lemma {:induction false} CentresEnds(p: Pen, x1: int, y1: int, dx: int, dy: int, sx: int, sy: int)
    ensures var cs := Centres(p, x1, y1, dx, dy, sx, sy);
      (p.done < MAX_CENTRES ==> |cs| >= 1 && cs[0] == (p.x, p.y)) &&
      (0 < |cs| && p.done + |cs| < MAX_CENTRES ==> cs[|cs| - 1] == (x1, y1))
    decreases MAX_CENTRES - p.done
  {
    if p.done < MAX_CENTRES && !(p.x == x1 && p.y == y1) {
      var q := Advance(p, dx, dy, sx, sy);
      var rest := Centres(q, x1, y1, dx, dy, sx, sy);
      CentresEnds(q, x1, y1, dx, dy, sx, sy);
      var cs := Centres(p, x1, y1, dx, dy, sx, sy);
      assert cs == [(p.x, p.y)] + rest;
      if rest != [] {
        assert cs[|cs| - 1] == rest[|rest| - 1];
      }
    }
  }

  /** The stepping from pen `p` never stamps the end cell except as its last
      centre, and every step moves each coordinate by 0 or by its direction. */
  lemma {:induction false} CentresShape(p: Pen, x1: int, y1: int, dx: int, dy: int, sx: int, sy: int)
    ensures var cs := Centres(p, x1, y1, dx, dy, sx, sy);
      EndsLast(cs, x1, y1) && Steps(cs, sx, sy)
    decreases MAX_CENTRES - p.done
  {
    if p.done < MAX_CENTRES && !(p.x == x1 && p.y == y1) {
      var q := Advance(p, dx, dy, sx, sy);
      var rest := Centres(q, x1, y1, dx, dy, sx, sy);
      CentresShape(q, x1, y1, dx, dy, sx, sy);
      CentresEnds(q, x1, y1, dx, dy, sx, sy);
      assert Centres(p, x1, y1, dx, dy, sx, sy) == [(p.x, p.y)] + rest;
      ConsSteps((p.x, p.y), rest, x1, y1, sx, sy);
    }
  }

  /** `drawLine` stamps between 1 and 20 centres, the first being the
      previous cursor cell; it stamps the end cell only as its last centre,
      and stops before 20 centres only once it has stamped the end cell.
      Every centre lies in the box spanned by the two ends, and each step
      moves to a new cell by at most one column and one row towards the end. */
  lemma LineCentresShape(x0: int, y0: int, x1: int, y1: int)
    ensures var cs := LineCentres(x0, y0, x1, y1);
      1 <= |cs| <= MAX_CENTRES && cs[0] == (x0, y0) &&
      (forall k :: 0 <= k < |cs| - 1 ==> cs[k] != (x1, y1)) &&
      (|cs| < MAX_CENTRES ==> cs[|cs| - 1] == (x1, y1)) &&
      (forall k :: 0 <= k < |cs| - 1 ==>
         (cs[k + 1].0 == cs[k].0 || cs[k + 1].0 == cs[k].0 + (if x0 < x1 then 1 else -1)) &&
         (cs[k + 1].1 == cs[k].1 || cs[k + 1].1 == cs[k].1 + (if y0 < y1 then 1 else -1)))
  {
    var p := Pen(x0, y0, Abs(x1 - x0) - Abs(y1 - y0), 0);
    CentresEnds(p, x1, y1, Abs(x1 - x0), Abs(y1 - y0), Sign(x0, x1), Sign(y0, y1));
    CentresShape(p, x1, y1, Abs(x1 - x0), Abs(y1 - y0), Sign(x0, x1), Sign(y0, y1));
  }

  /** Every centre `drawLine(x0, y0, x1, y1)` stamps lies in the box spanned
      by the two ends, and no centre repeats the one before it: a
      coordinate that has reached its end is never stepped past it. */
  lemma LineCentresBoxed(x0: int, y0: int, x1: int, y1: int)
    ensures var cs := LineCentres(x0, y0, x1, y1);
      Boxed(cs, x0, y0, x1, y1) && Moving(cs)
  {
    CentresOnLine(Pen(x0, y0, Abs(x1 - x0) - Abs(y1 - y0), 0), x0, y0, x1, y1);
  }

  /** `v` lies between `v0` and `v1`, both included. */
  predicate Between(v: int, v0: int, v1: int)
  {
    (v0 <= v <= v1) || (v1 <= v <= v0)
  }

  /** The pen of `drawLine(x0, y0, x1, y1)` lies in the box spanned by the two
      ends, and its error term is the line's error at the pen: with `a`
      column steps and `b` row steps taken, `dx - dy + b * dx - a * dy`. */
  predicate OnLine(p: Pen, x0: int, y0: int, x1: int, y1: int)
  {
    Between(p.x, x0, x1) && Between(p.y, y0, y1) &&
    p.err == Abs(x1 - x0) - Abs(y1 - y0) + Times(Abs(p.y - y0), Abs(x1 - x0)) - Times(Abs(p.x - x0), Abs(y1 - y0))
  }

  /** `k * d`, as `k` additions of `d`. */
  function Times(k: nat, d: int): int
  {
    if k == 0 then 0 else Times(k - 1, d) + d
  }

  /** `Times` is multiplication. */
  lemma {:induction false} TimesIs(k: nat, d: int)
    ensures Times(k, d) == k * d
  {
    if k > 0 {
      TimesIs(k - 1, d);
      assert k * d == (k - 1) * d + d;
    }
  }

  /** A product of a non-negative and a non-positive number is not positive. */
  lemma {:induction false} MulSigns(a: int, b: int)
    requires a >= 0 && b <= 0
    ensures a * b <= 0
    decreases a
  {
    if a > 0 {
      MulSigns(a - 1, b);
      assert a * b == (a - 1) * b + b;
    }
  }

  /** The error arithmetic of one step, with `a` of `dx` column steps and
      `b` of `dy` row steps taken and the end not reached: a column step is
      taken only while `a < dx`, a row step only while `b < dy`, at least
      one of them is taken, and each keeps the error term of the line. */
  lemma StepError(err: int, a: nat, b: nat, dx: int, dy: int)
    requires a <= dx && b <= dy && !(a == dx && b == dy)
    requires err == dx - dy + Times(b, dx) - Times(a, dy)
    ensures 2 * err > -dy ==> a < dx
    ensures 2 * err < dx ==> b < dy
    ensures 2 * err > -dy || 2 * err < dx
    ensures err - dy == dx - dy + Times(b, dx) - Times(a + 1, dy)
    ensures err + dx == dx - dy + Times(b + 1, dx) - Times(a, dy)
  {
    TimesIs(b, dx);
    TimesIs(a, dy);
    if a == dx {
      assert err == -dy + dx * (1 + b - dy);
      MulSigns(dx, 1 + b - dy);
    }
    if b == dy {
      assert err == dx - dy * (1 + a - dx);
      MulSigns(dy, 1 + a - dx);
    }
  }

  /** A coordinate `v` between `v0` and `v1` is `a = |v - v0|` steps from
      `v0`, at most `d = |v1 - v0|`; it is the end exactly when `a == d`, and
      otherwise a step in the direction `Sign(v0, v1)` stays between them. */
  lemma StepCoordinate(v: int, v0: int, v1: int)
    requires Between(v, v0, v1)
    ensures Abs(v - v0) <= Abs(v1 - v0)
    ensures Abs(v - v0) == Abs(v1 - v0) <==> v == v1
    ensures v != v1 ==>
              Between(v + Sign(v0, v1), v0, v1) && Abs(v + Sign(v0, v1) - v0) == Abs(v - v0) + 1
  {
  }

  /** A step from a pen on the line, short of the end, stays on the line
      and moves the pen: a coordinate already at its end is never stepped
      again, whatever its direction. */
  lemma AdvanceOnLine(p: Pen, x0: int, y0: int, x1: int, y1: int)
    requires OnLine(p, x0, y0, x1, y1) && !(p.x == x1 && p.y == y1)
    ensures var q := Advance(p, Abs(x1 - x0), Abs(y1 - y0), Sign(x0, x1), Sign(y0, y1));
      OnLine(q, x0, y0, x1, y1) && (q.x, q.y) != (p.x, p.y)
  {
    var dx: int, dy: int, sx, sy := Abs(x1 - x0), Abs(y1 - y0), Sign(x0, x1), Sign(y0, y1);
    var a, b := Abs(p.x - x0), Abs(p.y - y0);
    StepCoordinate(p.x, x0, x1);
    StepCoordinate(p.y, y0, y1);
    StepError(p.err, a, b, dx, dy);
    var q := Advance(p, dx, dy, sx, sy);
    var xs, ys := 2 * p.err > -dy, 2 * p.err < dx;
    assert q == Pen(if xs then p.x + sx else p.x, if ys then p.y + sy else p.y,
                    p.err - (if xs then dy else 0) + (if ys then dx else 0), p.done + 1);
    OnLineAfter(p, q, x0, y0, x1, y1, xs, ys);
  }

  /** The pen after stepping the column if `xs` and the row if `ys`, from a
      pen on the line whose error term admits those steps, is on the line. */
  lemma OnLineAfter(p: Pen, q: Pen, x0: int, y0: int, x1: int, y1: int, xs: bool, ys: bool)
    requires Between(p.x, x0, x1) && Between(p.y, y0, y1)
    requires xs ==> p.x != x1
    requires ys ==> p.y != y1
    requires var dx, dy := Abs(x1 - x0), Abs(y1 - y0);
      (xs ==> p.err - dy == dx - dy + Times(Abs(p.y - y0), dx) - Times(Abs(p.x - x0) + 1, dy)) &&
      (ys ==> p.err + dx == dx - dy + Times(Abs(p.y - y0) + 1, dx) - Times(Abs(p.x - x0), dy)) &&
      (xs && ys ==> p.err - dy + dx == dx - dy + Times(Abs(p.y - y0) + 1, dx) - Times(Abs(p.x - x0) + 1, dy)) &&
      (!xs && !ys ==> p.err == dx - dy + Times(Abs(p.y - y0), dx) - Times(Abs(p.x - x0), dy))
    requires q == Pen(if xs then p.x + Sign(x0, x1) else p.x, if ys then p.y + Sign(y0, y1) else p.y,
                      p.err - (if xs then Abs(y1 - y0) else 0) + (if ys then Abs(x1 - x0) else 0), p.done + 1)
    ensures OnLine(q, x0, y0, x1, y1)
  {
    StepCoordinate(p.x, x0, x1);
    StepCoordinate(p.y, y0, y1);
  }

  /** Every centre of `cs` lies in the box spanned by the two ends. */
  predicate Boxed(cs: seq<(int, int)>, x0: int, y0: int, x1: int, y1: int)
  {
    forall k :: 0 <= k < |cs| ==> Between(cs[k].0, x0, x1) && Between(cs[k].1, y0, y1)
  }

  /** Every centre of `cs` differs from the one before it. */
  predicate Moving(cs: seq<(int, int)>)
  {
    forall k :: 0 <= k < |cs| - 1 ==> cs[k + 1] != cs[k]
  }

  /** Putting a centre in the box, different from the next one, in front of
      a boxed, moving sequence keeps it boxed and moving. */
  lemma Cons(h: (int, int), rest: seq<(int, int)>, x0: int, y0: int, x1: int, y1: int)
    requires Between(h.0, x0, x1) && Between(h.1, y0, y1)
    requires Boxed(rest, x0, y0, x1, y1) && Moving(rest)
    requires rest == [] || rest[0] != h
    ensures Boxed([h] + rest, x0, y0, x1, y1) && Moving([h] + rest)
  {
    var cs := [h] + rest;
    forall k | 0 < k < |cs|
      ensures cs[k] == rest[k - 1]
    {
    }
  }

  /** Every centre stamped from a pen on the line lies in the box between the
      ends, and consecutive centres differ. */
  lemma {:induction false} CentresOnLine(p: Pen, x0: int, y0: int, x1: int, y1: int)
    requires OnLine(p, x0, y0, x1, y1)
    ensures var cs := Centres(p, x1, y1, Abs(x1 - x0), Abs(y1 - y0), Sign(x0, x1), Sign(y0, y1));
      Boxed(cs, x0, y0, x1, y1) && Moving(cs)
    decreases MAX_CENTRES - p.done
  {
    var dx, dy, sx, sy := Abs(x1 - x0), Abs(y1 - y0), Sign(x0, x1), Sign(y0, y1);
    if p.done < MAX_CENTRES {
      var rest := [];
      if !(p.x == x1 && p.y == y1) {
        var q := Advance(p, dx, dy, sx, sy);
        AdvanceOnLine(p, x0, y0, x1, y1);
        CentresOnLine(q, x0, y0, x1, y1);
        rest := Centres(q, x1, y1, dx, dy, sx, sy);
      }
      assert Centres(p, x1, y1, dx, dy, sx, sy) == [(p.x, p.y)] + rest;
      Cons((p.x, p.y), rest, x0, y0, x1, y1);
    }
  }

  /** The cells of a grid of `n` cells covered by the discs of radius `r`
      at the centres `cs`. */
  ghost function LineCells(cs: seq<(int, int)>, r: int, w: int, n: nat): set<int>
  {
    if cs == [] then {}
    else LineCells(cs[..|cs| - 1], r, w, n) + DiscCells(cs[|cs| - 1].0, cs[|cs| - 1].1, r, w, n)
  }

  /** One iteration of `drawLine`'s loop: with the remaining centres
      `cs[p.done..]` produced from pen `p`, the centre stamped now is the
      pen's, the loop stops after it exactly when it is the end, and otherwise
      the stepped pen produces the rest. */
  lemma CentresStep(p: Pen, x1: int, y1: int, dx: int, dy: int, sx: int, sy: int, cs: seq<(int, int)>)
    requires p.done < MAX_CENTRES && p.done <= |cs| && Centres(p, x1, y1, dx, dy, sx, sy) == cs[p.done..]
    ensures p.done < |cs| && cs[p.done] == (p.x, p.y)
    ensures p.x == x1 && p.y == y1 ==> |cs| == p.done + 1
    ensures !(p.x == x1 && p.y == y1) ==>
              Centres(Advance(p, dx, dy, sx, sy), x1, y1, dx, dy, sx, sy) == cs[p.done + 1..]
  {
    var i := p.done;
    assert cs[i..][0] == cs[i];
    assert cs[i..][1..] == cs[i + 1..];
  }

  /** The stroke of the first `i + 1` centres is that of the first `i` plus
      the disc of centre `i`. */
  lemma LineCellsSnoc(cs: seq<(int, int)>, i: nat, r: int, w: int, n: nat)
    requires i < |cs|
    ensures LineCells(cs[..i + 1], r, w, n) == LineCells(cs[..i], r, w, n) + DiscCells(cs[i].0, cs[i].1, r, w, n)
  {
    assert cs[..i + 1][..i] == cs[..i];
  }

  /** A cell is covered by the stroke iff it lies in the grid and in the disc
      of one of its centres. */
  lemma {:induction false} LineCellsAre(cs: seq<(int, int)>, r: int, w: int, n: nat, i: int)
    ensures i in LineCells(cs, r, w, n) <==>
            0 <= i < n && exists k :: 0 <= k < |cs| && InDisc(i, cs[k].0, cs[k].1, r, w)
  {
    if cs != [] {
      var init := cs[..|cs| - 1];
      LineCellsAre(init, r, w, n, i);
      if exists k :: 0 <= k < |cs| && InDisc(i, cs[k].0, cs[k].1, r, w) {
        var k :| 0 <= k < |cs| && InDisc(i, cs[k].0, cs[k].1, r, w);
        if k < |cs| - 1 {
          assert init[k] == cs[k];
        }
      }
      if exists k :: 0 <= k < |init| && InDisc(i, init[k].0, init[k].1, r, w) {
        var k :| 0 <= k < |init| && InDisc(i, init[k].0, init[k].1, r, w);
        assert init[k] == cs[k];
      }
    }
  }
}
