/** The simulation state of main.js as one object: the grid dimensions and
    the typed arrays indexed by `x + y * gridW`, with the per-tick sweep
    (`stepSimulation`), the brush (`fillCircles`) and the migration of the
    arrays on a resize (`resize`). */
module Simulation {
  import opened Cells
  import opened Motion
  import opened Strokes
  import opened Migration

  class World {
    var gridW: nat
    var gridH: nat
    /** Material id of each cell. */
    var materials: array<Byte>
    /** 1 once a particle has been moved into the cell during this tick. */
    var updated: array<Byte>
    /** Downward velocity of each cell. */
    var yVel: array<Byte>
    /** Sideways velocity; allocated and migrated, never read by the rules. */
    var xVel: array<Byte>

    ghost predicate Valid()
      reads this
    {
      materials.Length == gridW * gridH &&
      updated.Length == materials.Length &&
      yVel.Length == materials.Length &&
      xVel.Length == materials.Length &&
      materials != updated && materials != yVel && materials != xVel &&
      updated != yVel && updated != xVel && yVel != xVel
    }

    /** The start-up state: a grid of `canvasW / CELL_SIZE` by
        `canvasH / CELL_SIZE` cells, all AIR, at rest and unflagged. */
    constructor (canvasW: nat, canvasH: nat)
      ensures Valid()
      ensures gridW == canvasW / CELL_SIZE && gridH == canvasH / CELL_SIZE
      ensures forall i :: 0 <= i < materials.Length ==>
                materials[i] == AIR && updated[i] == 0 && yVel[i] == 0 && xVel[i] == 0
    {
      var w, h := canvasW / CELL_SIZE, canvasH / CELL_SIZE;
      gridW, gridH := w, h;
      materials := new Byte[w * h](_ => 0);
      updated := new Byte[w * h](_ => 0);
      yVel := new Byte[w * h](_ => 0);
      xVel := new Byte[w * h](_ => 0);
    }

    /** `stepSimulation`: one tick. While the button is held, the brush
        paints `selection` with radius 3 along the cursor's path (giving the
        grid `painted`, `paintedVel`); then the flags are cleared and the
        grid is swept, passing through the grids `trace`, one per visit of
        `SweepOrder`, and making the relocations `moves`. `dirs[y]` is the
        scan direction the source draws for row `y` with `Math.random()`. */
    method StepSimulation(mousedown: bool, mouseX: int, mouseY: int, prevX: int, prevY: int,
                          selection: Byte, dirs: seq<bool>)
      returns (ghost painted: seq<Byte>, ghost paintedVel: seq<Byte>, ghost moves: seq<Move>,
               ghost trace: seq<Grid>, ghost outs: seq<Outcome>)
      requires Valid() && |dirs| == gridH
      modifies materials, yVel, updated
      ensures mousedown ==>
                Painted(old(materials[..]), old(yVel[..]), painted, paintedVel, selection,
                        LineCells(LineCentres(CellOf(prevX), CellOf(prevY), CellOf(mouseX), CellOf(mouseY)),
                                  BRUSH_RADIUS, gridW, materials.Length))
      ensures !mousedown ==> painted == old(materials[..]) && paintedVel == old(yVel[..])
      ensures |painted| == materials.Length
      ensures Traced(SweepOrder(gridW, dirs), trace, outs, gridW)
      ensures trace[0] == Grid(painted, seq(|painted|, _ => 0), paintedVel)
      ensures trace[|trace| - 1] == Grid(materials[..], updated[..], yVel[..])
      ensures moves == Logged(outs)
      ensures SweepHolds(painted, materials[..], updated[..], moves, gridW)
    {
      if mousedown {
        FillCircles(mouseX, mouseY, prevX, prevY, BRUSH_RADIUS, selection);
      }
      painted, paintedVel := materials[..], yVel[..];
      ClearUpdated();
      assert updated[..] == seq(|painted|, _ => 0);
      trace, outs := Sweep(dirs);
      moves := Logged(outs);
      ghost var first, last := trace[0], trace[|trace| - 1];
      assert first.mat == painted && last.mat == materials[..] && last.upd == updated[..];
      TracedSweeps(SweepOrder(gridW, dirs), trace, outs, gridW);
    }

    /** The distance search of `tryMove(dx, dy)` (the `while` loop on `dist`)
        for the cell `id` holding `mover`: `steps` is one less than the final
        `dist`, that is the run of passable cells along `(dx, dy)`, cut at the
        limit that the cell's velocity allows. */
    method Search(id: int, mover: Byte, dx: int, dy: int) returns (steps: nat)
      requires Valid() && 0 <= id < yVel.Length
      ensures SearchFound(materials[..], id, gridW, dx, dy, mover, yVel[id], steps)
    {
      var lim := SearchLimit(yVel[id]);
      ghost var m := materials[..];
      var dist := 1;
      while Passable(materials[..], ProbeAt(id, gridW, dx, dy, dist), mover) && dist <= lim
        invariant 1 <= dist <= lim + 1
        invariant forall k :: 1 <= k < dist ==> Passable(m, ProbeAt(id, gridW, dx, dy, k), mover)
        decreases lim + 1 - dist
      {
        dist := dist + 1;
      }
      steps := dist - 1;
    }

    /** The writes of a successful `tryMove`: material and velocity copied to
        the destination, the destination flagged, the source cleared to AIR. */
    method Relocate(mv: Move)
      requires Valid() && Relocatable(materials[..], updated[..], gridW, mv)
      modifies materials, yVel, updated
      ensures materials[..] == Relocated(old(materials[..]), mv)
      ensures updated[..] == old(updated[..])[mv.dst := 1]
      ensures yVel[..] == old(yVel[..])[mv.dst := old(yVel[mv.src])]
    {
      ghost var m: seq<Byte> := materials[..];
      ghost var u: seq<Byte> := updated[..];
      ghost var v: seq<Byte> := yVel[..];
      materials[mv.dst] := materials[mv.src];
      assert materials[..] == m[mv.dst := mv.mover];
      yVel[mv.dst] := yVel[mv.src];
      assert yVel[..] == v[mv.dst := v[mv.src]];
      updated[mv.dst] := 1;
      assert updated[..] == u[mv.dst := 1];
      materials[mv.src] := AIR;
    }

    /** `tryMove(dx, dy)` for the cell `id` holding `mover`: search along
        `(dx, dy)`; on a blocked first cell reset the velocity and fail,
        otherwise carry the cell to the last passable cell of the run.
        The source makes the sideways calls only after a failed vertical
        call has zeroed the velocity, so those search one cell only.
        The source's branch for a destination equal to the source (which
        writes the copies and the flag before giving up) is the `else`
        below, without those writes: the verifier shows it cannot be
        taken, since a destination equal to the source would be the cell
        probed at distance 1 (for example with `gridW == 1` on the
        `(-1, 1)` diagonal), and a mover never finds its own cell passable. */
    method TryMove(id: int, mover: Byte, dx: int, dy: int) returns (moved: bool, steps: nat, dst: int)
      requires Valid()
      requires 0 <= id < materials.Length && materials[id] == mover && updated[id] == 0
      requires mover != AIR && mover != WALL
      requires (dx == 0 && dy == 1) ||
               (mover == WATER && dy == 0 && (dx == 2 || dx == -2) && yVel[id] < 18) ||
               (mover == SAND && dy == 1 && (dx == 1 || dx == -1) && yVel[id] < 18 &&
                Probe(materials[..], id + dx) != WALL)
      modifies materials, yVel, updated
      ensures SearchFound(old(materials[..]), id, gridW, dx, dy, mover, old(yVel[id]), steps)
      ensures moved <==> steps >= 1
      ensures !moved ==>
                materials[..] == old(materials[..]) && updated[..] == old(updated[..]) &&
                yVel[..] == old(yVel[..])[id := 0]
      ensures moved ==>
                0 <= dst < materials.Length && dst == Target(id, gridW, dx, dy, steps) &&
                Relocatable(old(materials[..]), old(updated[..]), gridW,
                            Move(id, dst, dx, dy, steps, mover, old(materials[dst]))) &&
                materials[..] == old(materials[..])[dst := mover][id := AIR] &&
                updated[..] == old(updated[..])[dst := 1] &&
                yVel[..] == old(yVel[..])[dst := old(yVel[id])]
    {
      steps := Search(id, mover, dx, dy);
      dst := Target(id, gridW, dx, dy, steps);
      if steps == 0 {
        yVel[id] := 0;
        return false, steps, dst;
      }
      assert ProbeAt(id, gridW, dx, dy, steps) == dst;
      assert Passable(materials[..], dst, mover);
      if id != dst {
        Relocate(Move(id, dst, dx, dy, steps, mover, materials[dst]));
        moved := true;
      } else {
        moved := false;
      }
    }

    /** One visit of the sweep at flat index `id` (one iteration of the inner
        loop of `stepSimulation`): the velocity accrues, and a cell that holds
        neither AIR nor WALL and has not been moved into this tick tries to
        move. `moved` and `mv` report the relocation, if any. */
    method Visit(id: int, leftToRight: bool) returns (ghost moved: bool, ghost mv: Move)
      requires Valid()
      modifies materials, yVel, updated
      ensures Visited(Grid(old(materials[..]), old(updated[..]), old(yVel[..])),
                      Grid(materials[..], updated[..], yVel[..]), id, gridW, Dir(leftToRight), Outcome(moved, mv))
    {
      moved, mv := false, Move(id, id, 0, 0, 0, AIR, AIR);
      var mat := Probe(materials[..], id);
      if 0 <= id < yVel.Length {
        yVel[id] := Inc(yVel[id]);
      }
      if mat > AIR && updated[id] == 0 && mat != WALL {
        moved, mv := UpdateParticle(id, leftToRight);
      }
    }

    /** The body of `if (matID > MAT_AIR && updated[thisID] == 0)` for a cell
        that is not a wall: fall, and if that fails spread or slide. */
    method UpdateParticle(id: int, leftToRight: bool) returns (ghost moved: bool, ghost mv: Move)
      requires Valid() && Eligible(id, materials[..], updated[..])
      modifies materials, yVel, updated
      ensures !moved ==>
                materials[..] == old(materials[..]) && updated[..] == old(updated[..]) &&
                yVel[..] == old(yVel[..])[id := 0] &&
                Stuck(old(materials[..]), id, gridW, if leftToRight then 1 else -1, old(materials[id]))
      ensures moved ==>
                Relocatable(old(materials[..]), old(updated[..]), gridW, mv) &&
                materials[..] == Relocated(old(materials[..]), mv) &&
                updated[..] == old(updated[..])[mv.dst := 1] &&
                FollowsAttemptOrder(mv, id, if leftToRight then 1 else -1, old(materials[..]), gridW)
      ensures moved && IsFall(mv) ==>
                SearchFound(old(materials[..]), id, gridW, 0, 1, mv.mover, old(yVel[id]), mv.steps) &&
                yVel[..] == old(yVel[..])[mv.dst := old(yVel[id])]
      ensures moved && !IsFall(mv) ==> yVel[..] == old(yVel[..])[id := 0][mv.dst := 0]
    {
      ghost var m, v := materials[..], yVel[..];
      var mover := materials[id];
      var fell, steps, dst := TryMove(id, mover, 0, 1);
      if fell {
        moved, mv := true, Move(id, dst, 0, 1, steps, mover, m[dst]);
        return;
      }
      assert !Passable(m, id + gridW, mover) by {
        assert ProbeAt(id, gridW, 0, 1, 1) == id + gridW;
      }
      assert materials[id] == mover && updated[id] == 0 && yVel[..] == v[id := 0];
      moved, mv := Sideways(id, if leftToRight then 1 else -1);
    }

    /** The attempts after a failed fall: water spreads, sand slides, any
        other mover stays. */
    method Sideways(id: int, tu: int) returns (ghost moved: bool, ghost mv: Move)
      requires Valid() && Eligible(id, materials[..], updated[..])
      requires yVel[id] == 0 && (tu == 1 || tu == -1)
      requires !Passable(materials[..], id + gridW, materials[id])
      modifies materials, yVel, updated
      ensures !moved ==>
                materials[..] == old(materials[..]) && updated[..] == old(updated[..]) &&
                yVel[..] == old(yVel[..]) &&
                Stuck(old(materials[..]), id, gridW, tu, old(materials[id]))
      ensures moved ==>
                Relocatable(old(materials[..]), old(updated[..]), gridW, mv) &&
                materials[..] == Relocated(old(materials[..]), mv) &&
                updated[..] == old(updated[..])[mv.dst := 1] &&
                !IsFall(mv) &&
                FollowsAttemptOrder(mv, id, tu, old(materials[..]), gridW) &&
                yVel[..] == old(yVel[..])[mv.dst := 0]
    {
      moved, mv := false, Move(id, id, 0, 0, 0, AIR, AIR);
      if materials[id] == WATER {
        moved, mv := Spread(id, tu);
      } else if materials[id] == SAND {
        moved, mv := Slide(id, tu);
      }
    }

    /** Water that could not fall tries `(2*tu, 0)`, then `(-2*tu, 0)`. */
    method Spread(id: int, tu: int) returns (ghost moved: bool, ghost mv: Move)
      requires Valid() && Eligible(id, materials[..], updated[..])
      requires materials[id] == WATER && yVel[id] == 0 && (tu == 1 || tu == -1)
      requires !Passable(materials[..], id + gridW, WATER)
      modifies materials, yVel, updated
      ensures !moved ==>
                materials[..] == old(materials[..]) && updated[..] == old(updated[..]) &&
                yVel[..] == old(yVel[..]) &&
                !Passable(old(materials[..]), id + 2 * tu, WATER) &&
                !Passable(old(materials[..]), id - 2 * tu, WATER)
      ensures moved ==>
                Relocatable(old(materials[..]), old(updated[..]), gridW, mv) &&
                materials[..] == Relocated(old(materials[..]), mv) &&
                updated[..] == old(updated[..])[mv.dst := 1] &&
                IsSpread(mv) &&
                FollowsAttemptOrder(mv, id, tu, old(materials[..]), gridW) &&
                yVel[..] == old(yVel[..])[mv.dst := 0]
    {
      ghost var m, v := materials[..], yVel[..];
      var spread, steps, dst := TryMove(id, WATER, 2 * tu, 0);
      if spread {
        moved, mv := true, Move(id, dst, 2 * tu, 0, steps, WATER, m[dst]);
        return;
      }
      assert !Passable(m, id + 2 * tu, WATER) by {
        assert ProbeAt(id, gridW, 2 * tu, 0, 1) == id + 2 * tu;
      }
      assert materials[id] == WATER && updated[id] == 0 && yVel[..] == v;
      spread, steps, dst := TryMove(id, WATER, -2 * tu, 0);
      moved, mv := false, Move(id, id, 0, 0, 0, AIR, AIR);
      if spread {
        moved, mv := true, Move(id, dst, -2 * tu, 0, steps, WATER, m[dst]);
      } else {
        assert ProbeAt(id, gridW, -2 * tu, 0, 1) == id - 2 * tu;
        assert yVel[..] == v;
      }
    }

    /** Sand that could not fall tries `(tu, 1)` unless the cell at `(tu, 0)`
        is a wall, then `(-tu, 1)` unless the cell at `(-tu, 0)` is a wall. */
    method Slide(id: int, tu: int) returns (ghost moved: bool, ghost mv: Move)
      requires Valid() && Eligible(id, materials[..], updated[..])
      requires materials[id] == SAND && yVel[id] == 0 && (tu == 1 || tu == -1)
      requires !Passable(materials[..], id + gridW, SAND)
      modifies materials, yVel, updated
      ensures !moved ==>
                materials[..] == old(materials[..]) && updated[..] == old(updated[..]) &&
                yVel[..] == old(yVel[..]) &&
                (Solid(old(materials[..]), id + tu) || !Passable(old(materials[..]), id + tu + gridW, SAND)) &&
                (Solid(old(materials[..]), id - tu) || !Passable(old(materials[..]), id - tu + gridW, SAND))
      ensures moved ==>
                Relocatable(old(materials[..]), old(updated[..]), gridW, mv) &&
                materials[..] == Relocated(old(materials[..]), mv) &&
                updated[..] == old(updated[..])[mv.dst := 1] &&
                mv.mover == SAND && mv.dy == 1 && (mv.dx == tu || mv.dx == -tu) &&
                FollowsAttemptOrder(mv, id, tu, old(materials[..]), gridW) &&
                yVel[..] == old(yVel[..])[mv.dst := 0]
    {
      var slid;
      slid, mv := SlideOnce(id, tu);
      if !slid {
        slid, mv := SlideOnce(id, -tu);
      }
      moved := slid;
    }

    /** One diagonal attempt of sand that could not fall: `tryMove(d, 1)`,
        made only when the cell at `(d, 0)` is not a wall. */
    method SlideOnce(id: int, d: int) returns (moved: bool, ghost mv: Move)
      requires Valid() && Eligible(id, materials[..], updated[..])
      requires materials[id] == SAND && yVel[id] == 0 && (d == 1 || d == -1)
      modifies materials, yVel, updated
      ensures !moved ==>
                materials[..] == old(materials[..]) && updated[..] == old(updated[..]) &&
                yVel[..] == old(yVel[..])
      ensures !moved ==>
                Solid(old(materials[..]), id + d) || !Passable(old(materials[..]), id + d + gridW, SAND)
      ensures moved ==>
                Relocatable(old(materials[..]), old(updated[..]), gridW, mv) &&
                materials[..] == Relocated(old(materials[..]), mv) &&
                updated[..] == old(updated[..])[mv.dst := 1] &&
                mv.src == id && mv.mover == SAND && mv.dx == d && mv.dy == 1 &&
                !Solid(old(materials[..]), id + d) &&
                yVel[..] == old(yVel[..])[mv.dst := 0]
    {
      ghost var m, v := materials[..], yVel[..];
      moved, mv := false, Move(id, id, 0, 0, 0, AIR, AIR);
      if !CellSolid(id, d, 0) {
        var slid, steps, dst := TryMove(id, SAND, d, 1);
        if slid {
          moved, mv := true, Move(id, dst, d, 1, steps, SAND, m[dst]);
          assert v[id] == 0;
          return;
        }
        assert ProbeAt(id, gridW, d, 1, 1) == id + d + gridW;
        assert yVel[..] == v;
      }
    }

    /** `for (let i = 0; i < updated.length; i++) updated[i] = 0`. */
    method ClearUpdated()
      requires Valid()
      modifies updated
      ensures forall i :: 0 <= i < updated.Length ==> updated[i] == 0
    {
      for i := 0 to updated.Length
        invariant forall j :: 0 <= j < i ==> updated[j] == 0
      {
        updated[i] := 0;
      }
    }

    /** The row loop of `stepSimulation`: rows from top to bottom, row `y`
        scanned left to right when `dirs[y]` holds (the source draws this
        with `Math.random()`). `trace` is the grid after each visit of
        `SweepOrder`, and `outs` what each visit did (by `TracedSweeps`,
        the relocations they report keep `SweepHolds`). */
    method Sweep(dirs: seq<bool>) returns (ghost trace: seq<Grid>, ghost outs: seq<Outcome>)
      requires Valid() && |dirs| == gridH
      modifies materials, yVel, updated
      ensures Traced(SweepOrder(gridW, dirs), trace, outs, gridW)
      ensures trace[0] == Grid(old(materials[..]), old(updated[..]), old(yVel[..]))
      ensures trace[|trace| - 1] == Grid(materials[..], updated[..], yVel[..])
    {
      trace, outs := [Grid(materials[..], updated[..], yVel[..])], [];
      for y := 0 to gridH
        invariant Traced(SweepOrder(gridW, dirs[..y]), trace, outs, gridW)
        invariant trace[0] == Grid(old(materials[..]), old(updated[..]), old(yVel[..]))
        invariant trace[|trace| - 1] == Grid(materials[..], updated[..], yVel[..])
      {
        ghost var rowTrace: seq<Grid>, rowOuts: seq<Outcome>;
        rowTrace, rowOuts := SweepRow(y, dirs[y]);
        TracedNextRow(gridW, dirs, y, trace, outs, rowTrace, rowOuts);
        trace, outs := trace + rowTrace[1..], outs + rowOuts;
      }
      assert dirs[..gridH] == dirs;
    }

    /** The column loop of `stepSimulation` for row `y`, in the direction
        `leftToRight` picks. */
    method SweepRow(y: nat, leftToRight: bool) returns (ghost trace: seq<Grid>, ghost outs: seq<Outcome>)
      requires Valid()
      modifies materials, yVel, updated
      ensures Traced(RowOrder(y, gridW, leftToRight), trace, outs, gridW)
      ensures trace[0] == Grid(old(materials[..]), old(updated[..]), old(yVel[..]))
      ensures trace[|trace| - 1] == Grid(materials[..], updated[..], yVel[..])
    {
      if leftToRight {
        trace, outs := ScanRight(y);
      } else {
        trace, outs := ScanLeft(y);
      }
    }

    /** `for (x = 0; x < gridW; x++)`: row `y` from left to right. */
    method ScanRight(y: nat) returns (ghost trace: seq<Grid>, ghost outs: seq<Outcome>)
      requires Valid()
      modifies materials, yVel, updated
      ensures Traced(RowOrder(y, gridW, true), trace, outs, gridW)
      ensures trace[0] == Grid(old(materials[..]), old(updated[..]), old(yVel[..]))
      ensures trace[|trace| - 1] == Grid(materials[..], updated[..], yVel[..])
    {
      ghost var order := RowOrder(y, gridW, true);
      trace, outs := [Grid(materials[..], updated[..], yVel[..])], [];
      var x := 0;
      while x < gridW
        invariant 0 <= x <= gridW
        invariant Traced(order[..x], trace, outs, gridW)
        invariant trace[0] == Grid(old(materials[..]), old(updated[..]), old(yVel[..]))
        invariant trace[|trace| - 1] == Grid(materials[..], updated[..], yVel[..])
      {
        RowOrderAt(y, gridW, true, x);
        trace, outs := VisitTraced(x + y * gridW, true, order, x, trace, outs);
        x := x + 1;
      }
      assert order[..gridW] == order;
    }

    /** `for (x = gridW; x >= 0; x--)`: row `y` from right to left, starting
        one past its last cell. */
    method ScanLeft(y: nat) returns (ghost trace: seq<Grid>, ghost outs: seq<Outcome>)
      requires Valid()
      modifies materials, yVel, updated
      ensures Traced(RowOrder(y, gridW, false), trace, outs, gridW)
      ensures trace[0] == Grid(old(materials[..]), old(updated[..]), old(yVel[..]))
      ensures trace[|trace| - 1] == Grid(materials[..], updated[..], yVel[..])
    {
      ghost var order := RowOrder(y, gridW, false);
      trace, outs := [Grid(materials[..], updated[..], yVel[..])], [];
      var x: int := gridW;
      while x >= 0
        invariant -1 <= x <= gridW
        invariant Traced(order[..gridW - x], trace, outs, gridW)
        invariant trace[0] == Grid(old(materials[..]), old(updated[..]), old(yVel[..]))
        invariant trace[|trace| - 1] == Grid(materials[..], updated[..], yVel[..])
      {
        RowOrderAt(y, gridW, false, gridW - x);
        trace, outs := VisitTraced(x + y * gridW, false, order, gridW - x, trace, outs);
        x := x - 1;
      }
      assert order[..gridW + 1] == order;
    }

    /** `Visit` as visit `n` of `order`, with the grid it leaves appended to
        the trace of the first `n` visits. */
    method VisitTraced(id: int, leftToRight: bool, ghost order: seq<(int, int)>, ghost n: nat,
                       ghost trace: seq<Grid>, ghost outs: seq<Outcome>)
      returns (ghost trace': seq<Grid>, ghost outs': seq<Outcome>)
      requires Valid()
      requires n < |order| && order[n] == (id, Dir(leftToRight))
      requires Traced(order[..n], trace, outs, gridW)
      requires trace[|trace| - 1] == Grid(materials[..], updated[..], yVel[..])
      modifies materials, yVel, updated
      ensures Traced(order[..n + 1], trace', outs', gridW)
      ensures trace'[0] == trace[0]
      ensures trace'[|trace'| - 1] == Grid(materials[..], updated[..], yVel[..])
    {
      ghost var moved: bool, mv: Move;
      moved, mv := Visit(id, leftToRight);
      ghost var g := Grid(materials[..], updated[..], yVel[..]);
      assert VisitStep(gridW)(trace[|trace| - 1], g, (id, Dir(leftToRight)), Outcome(moved, mv));
      RunSnoc(VisitStep(gridW), order[..n], trace, outs, (id, Dir(leftToRight)), g, Outcome(moved, mv));
      assert order[..n + 1] == order[..n] + [(id, Dir(leftToRight))];
      trace', outs' := trace + [g], outs + [Outcome(moved, mv)];
    }

    /** `setCell(x, y, material)`: paint the cell at `x + y * gridW` by
        `BrushWrite` and reset its velocity; an index outside the arrays
        writes nothing. The column is not range-checked. */
    method SetCell(x: int, y: int, brush: Byte)
      requires Valid()
      modifies materials, yVel
      ensures var id := x + y * gridW;
        Painted(old(materials[..]), old(yVel[..]), materials[..], yVel[..], brush,
                if 0 <= id < materials.Length then {id} else {})
    {
      var id := x + y * gridW;
      if 0 <= id < materials.Length {
        if materials[id] == AIR || brush == AIR || brush == WALL {
          materials[id] := brush;
        }
        yVel[id] := 0;
      }
    }

    /** `drawCircle(x0, y0, r, material)`: `setCell` on every offset of
        `[-r, r) x [-r, r)` within distance `r`, column offsets outermost. */
    method DrawCircle(x0: int, y0: int, r: int, brush: Byte)
      requires Valid()
      modifies materials, yVel
      ensures Painted(old(materials[..]), old(yVel[..]), materials[..], yVel[..], brush,
                      DiscCells(x0, y0, r, gridW, materials.Length))
    {
      ghost var m0, v0, n := materials[..], yVel[..], materials.Length;
      StampedNone(x0, y0, r, gridW, n);
      PaintedNothing(m0, v0, brush);
      var x := -r;
      while x < r
        invariant -r <= x && (x <= r || x == -r)
        invariant Painted(m0, v0, materials[..], yVel[..], brush, StampedCells(x0, y0, r, gridW, n, x, -r))
      {
        var y := -r;
        while y < r
          invariant -r <= y <= r
          invariant Painted(m0, v0, materials[..], yVel[..], brush, StampedCells(x0, y0, r, gridW, n, x, y))
        {
          ghost var m1, v1 := materials[..], yVel[..];
          ghost var cell: set<int> := {};
          if x * x + y * y <= r * r {
            SetCell(x0 + x, y0 + y, brush);
            cell := if 0 <= DiscCell(x0, y0, gridW, x, y) < n then {DiscCell(x0, y0, gridW, x, y)} else {};
          } else {
            PaintedNothing(m1, v1, brush);
          }
          PaintedTwice(m0, v0, m1, v1, materials[..], yVel[..], brush,
                       StampedCells(x0, y0, r, gridW, n, x, y), cell);
          StampedNextRow(x0, y0, r, gridW, n, x, y);
          y := y + 1;
        }
        StampedNextColumn(x0, y0, r, gridW, n, x);
        x := x + 1;
      }
      StampedAll(x0, y0, r, gridW, n, x);
    }

    /** `drawLine(x0, y0, x1, y1, material)` with the brush radius `r`: a
        disc at each centre of the integer line stepping from `(x0, y0)`
        towards `(x1, y1)`, for at most `MAX_CENTRES` centres. */
    method DrawLine(x0: int, y0: int, x1: int, y1: int, r: int, brush: Byte)
      requires Valid()
      modifies materials, yVel
      ensures Painted(old(materials[..]), old(yVel[..]), materials[..], yVel[..], brush,
                      LineCells(LineCentres(x0, y0, x1, y1), r, gridW, materials.Length))
    {
      ghost var m0, v0, n := materials[..], yVel[..], materials.Length;
      ghost var cs := LineCentres(x0, y0, x1, y1);
      var dx: int, dy: int := Abs(x1 - x0), Abs(y1 - y0);
      var sx, sy := Sign(x0, x1), Sign(y0, y1);
      var px: int, py: int, err: int := x0, y0, dx - dy;
      assert cs[0..] == cs && cs[..0] == [];
      PaintedNothing(m0, v0, brush);
      var i := 0;
      while i < MAX_CENTRES
        invariant 0 <= i <= |cs|
        invariant Centres(Pen(px, py, err, i), x1, y1, dx, dy, sx, sy) == cs[i..]
        invariant Painted(m0, v0, materials[..], yVel[..], brush, LineCells(cs[..i], r, gridW, n))
      {
        CentresStep(Pen(px, py, err, i), x1, y1, dx, dy, sx, sy, cs);
        StampCentre(px, py, r, brush, m0, v0, cs, i);
        if px == x1 && py == y1 {
          assert cs[..i + 1] == cs;
          break;
        }
        px, py, err := StepPen(px, py, err, dx, dy, sx, sy, i);
        i := i + 1;
      }
      if i == MAX_CENTRES {
        assert cs[..i] == cs;
      }
    }

    /** The stepping of one iteration of `drawLine`: `e2 = 2 * err`, then a
        column step if `e2 > -dy` and a row step if `e2 < dx`. */
    static method StepPen(px: int, py: int, err: int, dx: int, dy: int, sx: int, sy: int, ghost i: nat)
      returns (px': int, py': int, err': int)
      ensures Pen(px', py', err', i + 1) == Advance(Pen(px, py, err, i), dx, dy, sx, sy)
    {
      px', py', err' := px, py, err;
      var e2 := 2 * err;
      if e2 > -dy {
        err' := err' - dy;
        px' := px' + sx;
      }
      if e2 < dx {
        err' := err' + dx;
        py' := py' + sy;
      }
    }

    /** The `drawCircle` call of one iteration of `drawLine`, at centre
        `cs[i]`: the grid painted with the discs of `cs[..i]` becomes the grid
        painted with the discs of `cs[..i + 1]`. */
    method StampCentre(px: int, py: int, r: int, brush: Byte, ghost m0: seq<Byte>, ghost v0: seq<Byte>,
                       ghost cs: seq<(int, int)>, ghost i: nat)
      requires Valid() && i < |cs| && cs[i] == (px, py)
      requires Painted(m0, v0, materials[..], yVel[..], brush, LineCells(cs[..i], r, gridW, materials.Length))
      modifies materials, yVel
      ensures Painted(m0, v0, materials[..], yVel[..], brush, LineCells(cs[..i + 1], r, gridW, materials.Length))
    {
      ghost var m1, v1, n := materials[..], yVel[..], materials.Length;
      DrawCircle(px, py, r, brush);
      PaintedTwice(m0, v0, m1, v1, materials[..], yVel[..], brush,
                   LineCells(cs[..i], r, gridW, n), DiscCells(px, py, r, gridW, n));
      LineCellsSnoc(cs, i, r, gridW, n);
    }

    /** `fillCircles(mouseX, mouseY, prevMouseX, prevMouseY, r, material)`:
        a stroke from the cell under the previous cursor position to the cell
        under the current one. */
    method FillCircles(mouseX: int, mouseY: int, prevX: int, prevY: int, r: int, brush: Byte)
      requires Valid()
      modifies materials, yVel
      ensures Painted(old(materials[..]), old(yVel[..]), materials[..], yVel[..], brush,
                      LineCells(LineCentres(CellOf(prevX), CellOf(prevY), CellOf(mouseX), CellOf(mouseY)),
                                r, gridW, materials.Length))
    {
      var cellX, cellY := CellOf(mouseX), CellOf(mouseY);
      var prevCellX, prevCellY := CellOf(prevX), CellOf(prevY);
      DrawLine(prevCellX, prevCellY, cellX, cellY, r, brush);
    }

    /** `resize` for a canvas of `canvasW` by `canvasH` pixels: fresh arrays
        for a grid of `canvasW / CELL_SIZE` by `canvasH / CELL_SIZE` cells,
        each new cell `(x, y)` inside the old grid copied from old flat index
        `x + y * oldW`, every other cell 0. The code as written copies from
        `x + y * oldW` for every new cell, which `Migrate` describes; the two
        differ only when the grid gets wider (`MigrateIsClipUnlessWidening`). */
    method Resize(canvasW: nat, canvasH: nat)
      requires Valid()
      modifies this
      ensures Valid()
      ensures gridW == canvasW / CELL_SIZE && gridH == canvasH / CELL_SIZE
      ensures fresh(materials) && fresh(updated) && fresh(yVel) && fresh(xVel)
      ensures materials[..] == Clip(old(materials[..]), old(gridW), old(gridH), gridW, gridH)
      ensures updated[..] == Clip(old(updated[..]), old(gridW), old(gridH), gridW, gridH)
      ensures yVel[..] == Clip(old(yVel[..]), old(gridW), old(gridH), gridW, gridH)
      ensures xVel[..] == Clip(old(xVel[..]), old(gridW), old(gridH), gridW, gridH)
    {
      var oldW, oldH := gridW, gridH;
      var w, h := canvasW / CELL_SIZE, canvasH / CELL_SIZE;
      var newCells, newUpdated, newYVel, newXVel := CopyGrid(materials, updated, yVel, xVel, oldW, oldH, w, h);
      gridW, gridH := w, h;
      materials, updated, yVel, xVel := newCells, newUpdated, newYVel, newXVel;
    }

    /** `cellSolid(dx, dy)` seen from the cell `id`. */
    predicate CellSolid(id: int, dx: int, dy: int)
      reads this, materials
    {
      Solid(materials[..], id + dx + dy * gridW)
    }
  }

  /** The cell `id` takes part in the movement rules: it holds neither AIR
      nor WALL (nor is outside the grid) and nothing was moved into it this
      tick. */
  predicate Eligible(id: int, mat: seq<Byte>, upd: seq<Byte>)
  {
    0 <= id < |mat| && 0 <= id < |upd| && mat[id] != AIR && mat[id] != WALL && upd[id] == 0
  }

  /** The three arrays the sweep changes, as values. */
  datatype Grid = Grid(mat: seq<Byte>, upd: seq<Byte>, vel: seq<Byte>)

  /** What one visit reports: whether it relocated a cell, and the relocation. */
  datatype Outcome = Outcome(moved: bool, mv: Move)

  /** The scan direction `tu` of a row: 1 left to right, -1 right to left. */
  function Dir(leftToRight: bool): int
  {
    if leftToRight then 1 else -1
  }

  /** One visit of the sweep at flat index `id`, on a row scanned in
      direction `tu`, turns `g` into `g'` with outcome `o`. A cell outside
      the rules only accrues velocity; an eligible cell either makes the one
      relocation the attempt order picks (a fall as far as the accrued
      velocity and the passable run allow, else a spread or a slide) or,
      when every attempt is blocked, stays with velocity 0. */
  ghost predicate Visited(g: Grid, g': Grid, id: int, w: int, tu: int, o: Outcome)
  {
    |g.upd| == |g.mat| && |g.vel| == |g.mat| &&
    (!o.moved ==> g'.mat == g.mat && g'.upd == g.upd) &&
    (o.moved ==>
       Eligible(id, g.mat, g.upd) && Relocatable(g.mat, g.upd, w, o.mv) &&
       g'.mat == Relocated(g.mat, o.mv) && g'.upd == g.upd[o.mv.dst := 1] &&
       FollowsAttemptOrder(o.mv, id, tu, g.mat, w)) &&
    (Eligible(id, g.mat, g.upd) && !o.moved ==> Stuck(g.mat, id, w, tu, g.mat[id])) &&
    (o.moved && IsFall(o.mv) ==>
       SearchFound(g.mat, id, w, 0, 1, o.mv.mover, Inc(g.vel[id]), o.mv.steps)) &&
    // velocity: accrued by one (mod 256) on a cell that does not take part
    // in the rules, reset on one that does and stays, carried along on a
    // fall, reset at both ends of a sideways move
    (!(0 <= id < |g.vel|) ==> g'.vel == g.vel) &&
    (0 <= id < |g.vel| && !Eligible(id, g.mat, g.upd) ==> g'.vel == g.vel[id := Inc(g.vel[id])]) &&
    (Eligible(id, g.mat, g.upd) && !o.moved ==> g'.vel == g.vel[id := 0]) &&
    (o.moved && IsFall(o.mv) ==> g'.vel == g.vel[id := Inc(g.vel[id])][o.mv.dst := Inc(g.vel[id])]) &&
    (o.moved && !IsFall(o.mv) ==> g'.vel == g.vel[id := 0][o.mv.dst := 0])
  }

  /** The visits of row `y` of a `w`-column grid, as pairs of flat index and
      direction: `x = 0 .. w - 1` left to right, or `x = w .. 0` right to
      left, whose first index `w + y * w` is the first cell of the next row. */
  function RowOrder(y: int, w: nat, leftToRight: bool): seq<(int, int)>
  {
    if leftToRight then seq(w, x => (x + y * w, 1))
    else seq(w + 1, k => (w - k + y * w, -1))
  }

  /** The visits of a whole sweep: rows `0 .. |dirs| - 1` from top to
      bottom, row `y` in direction `dirs[y]`. */
  function SweepOrder(w: nat, dirs: seq<bool>): seq<(int, int)>
  {
    if dirs == [] then []
    else SweepOrder(w, dirs[..|dirs| - 1]) + RowOrder(|dirs| - 1, w, dirs[|dirs| - 1])
  }

  /** The visits of rows `0 .. y` are those of rows `0 .. y - 1`, then those of row `y`. */
  lemma SweepOrderNext(w: nat, dirs: seq<bool>, y: nat)
    requires y < |dirs|
    ensures SweepOrder(w, dirs[..y + 1]) == SweepOrder(w, dirs[..y]) + RowOrder(y, w, dirs[y])
  {
    assert dirs[..y + 1][..y] == dirs[..y];
  }

  /** The trace of rows `0 .. y - 1` followed by that of row `y` is the
      trace of rows `0 .. y`. */
  lemma TracedNextRow(w: nat, dirs: seq<bool>, y: nat, trace: seq<Grid>, outs: seq<Outcome>,
                      rowTrace: seq<Grid>, rowOuts: seq<Outcome>)
    requires y < |dirs|
    requires Traced(SweepOrder(w, dirs[..y]), trace, outs, w)
    requires Traced(RowOrder(y, w, dirs[y]), rowTrace, rowOuts, w)
    requires trace[|trace| - 1] == rowTrace[0]
    ensures Traced(SweepOrder(w, dirs[..y + 1]), trace + rowTrace[1..], outs + rowOuts, w)
    ensures (trace + rowTrace[1..])[0] == trace[0]
    ensures (trace + rowTrace[1..])[|trace + rowTrace[1..]| - 1] == rowTrace[|rowTrace| - 1]
  {
    RunAppend(VisitStep(w), SweepOrder(w, dirs[..y]), trace, outs, RowOrder(y, w, dirs[y]), rowTrace, rowOuts);
    SweepOrderNext(w, dirs, y);
  }

  /** Visit `n` of row `y`: column `n` left to right, column `w - n` right to left. */
  lemma RowOrderAt(y: int, w: nat, leftToRight: bool, n: nat)
    requires n < |RowOrder(y, w, leftToRight)|
    ensures RowOrder(y, w, leftToRight)[n] ==
            (if leftToRight then n + y * w else w - n + y * w, Dir(leftToRight))
  {
  }

  /** A right-to-left scan makes one visit more than a left-to-right one,
      and its first is the first cell of the next row. */
  lemma RowOrderLeftExtra(y: int, w: nat)
    ensures |RowOrder(y, w, false)| == |RowOrder(y, w, true)| + 1
    ensures RowOrder(y, w, false)[0] == ((y + 1) * w, -1)
  {
  }

  /** A relation between the grid before a visit, the grid after it, the
      visit (flat index and direction) and what it reported. */
  type Step = (Grid, Grid, (int, int), Outcome) -> bool

  /** The visits of the sweep of a `w`-column grid, as a `Step`. */
  ghost function VisitStep(w: int): Step
  {
    (g: Grid, g': Grid, v: (int, int), o: Outcome) => Visited(g, g', v.0, w, v.1, o)
  }

  /** `trace` is the sequence of grids the visits `order` pass through under
      `step`, with outcomes `outs`: the visits before the last one pass
      through all but the last grid, and the last visit turns the grid
      before into the last. */
  ghost predicate Run(step: Step, order: seq<(int, int)>, trace: seq<Grid>, outs: seq<Outcome>)
    decreases |order|
  {
    |trace| == |order| + 1 && |outs| == |order| &&
    (order == [] ||
     var n := |order| - 1;
     Run(step, order[..n], trace[..n + 1], outs[..n]) &&
     step(trace[n], trace[n + 1], order[n], outs[n]))
  }

  /** `trace` is what the sweep visits `order` of a `w`-column grid pass through. */
  ghost predicate Traced(order: seq<(int, int)>, trace: seq<Grid>, outs: seq<Outcome>, w: int)
  {
    Run(VisitStep(w), order, trace, outs)
  }

  /** In a run, visit `k` turns grid `k` into grid `k + 1`. */
  lemma {:induction false} RunAt(step: Step, order: seq<(int, int)>, trace: seq<Grid>, outs: seq<Outcome>, k: int)
    requires Run(step, order, trace, outs) && 0 <= k < |order|
    ensures step(trace[k], trace[k + 1], order[k], outs[k])
    decreases |order|
  {
    var n := |order| - 1;
    if k < n {
      RunAt(step, order[..n], trace[..n + 1], outs[..n], k);
    }
  }

  /** In a trace of the sweep, visit `k` turns grid `k` into grid `k + 1`. */
  lemma TracedAt(order: seq<(int, int)>, trace: seq<Grid>, outs: seq<Outcome>, w: int, k: int)
    requires Traced(order, trace, outs, w) && 0 <= k < |order|
    ensures Visited(trace[k], trace[k + 1], order[k].0, w, order[k].1, outs[k])
  {
    RunAt(VisitStep(w), order, trace, outs, k);
  }

  /** One more visit extends a run by the grid it leaves. */
  lemma RunSnoc(step: Step, order: seq<(int, int)>, trace: seq<Grid>, outs: seq<Outcome>,
                v: (int, int), g': Grid, o: Outcome)
    requires Run(step, order, trace, outs)
    requires step(trace[|trace| - 1], g', v, o)
    ensures Run(step, order + [v], trace + [g'], outs + [o])
  {
    assert (order + [v])[..|order|] == order;
    assert (trace + [g'])[..|order| + 1] == trace;
    assert (outs + [o])[..|outs|] == outs;
  }

  /** `a + b` is `a` and all of `b` but its last element, then that element. */
  lemma SplitLast<T>(a: seq<T>, b: seq<T>)
    requires b != []
    ensures a + b == (a + b[..|b| - 1]) + [b[|b| - 1]]
  {
  }

  /** Two runs that meet at a grid join into one. */
  lemma {:induction false} RunAppend(step: Step, o1: seq<(int, int)>, t1: seq<Grid>, s1: seq<Outcome>,
                                     o2: seq<(int, int)>, t2: seq<Grid>, s2: seq<Outcome>)
    requires Run(step, o1, t1, s1) && Run(step, o2, t2, s2) && t1[|t1| - 1] == t2[0]
    ensures Run(step, o1 + o2, t1 + t2[1..], s1 + s2)
    decreases |o2|
  {
    if o2 == [] {
      assert o1 + o2 == o1 && t1 + t2[1..] == t1 && s1 + s2 == s1;
    } else {
      var n := |o2| - 1;
      RunAppend(step, o1, t1, s1, o2[..n], t2[..n + 1], s2[..n]);
      SplitLast(o1, o2);
      SplitLast(s1, s2);
      SplitLast(t1, t2[1..]);
      assert t2[1..][..n] == t2[..n + 1][1..];
      RunSnoc(step, o1 + o2[..n], t1 + t2[1..][..n], s1 + s2[..n], o2[n], t2[n + 1], s2[n]);
    }
  }

  /** The relocations reported by `outs`, in order. */
  function Logged(outs: seq<Outcome>): seq<Move>
  {
    if outs == [] then []
    else Logged(outs[..|outs| - 1]) + (if outs[|outs| - 1].moved then [outs[|outs| - 1].mv] else [])
  }

  /** A visit keeps the sweep invariant, with its relocation, if any,
      appended to the log. */
  lemma VisitKeepsSweep(start: seq<Byte>, g: Grid, g': Grid, id: int, w: int, tu: int, o: Outcome,
                        before: seq<Move>)
    requires Visited(g, g', id, w, tu, o)
    requires SweepHolds(start, g.mat, g.upd, before, w)
    ensures SweepHolds(start, g'.mat, g'.upd, before + (if o.moved then [o.mv] else []), w)
  {
    if o.moved {
      MoveKeepsSweep(start, g.mat, g.upd, before, w, o.mv);
    } else {
      assert before + [] == before;
    }
  }

  /** A whole trace from a grid whose flags are as long as its cells keeps
      the sweep invariant from that grid, with the relocations the trace
      reports as the log. */
  lemma {:induction false} TracedSweeps(order: seq<(int, int)>, trace: seq<Grid>, outs: seq<Outcome>, w: int)
    requires Traced(order, trace, outs, w) && |trace[0].upd| == |trace[0].mat|
    ensures SweepHolds(trace[0].mat, trace[|trace| - 1].mat, trace[|trace| - 1].upd, Logged(outs), w)
    decreases |order|
  {
    if order == [] {
      SweepStarts(trace[0].mat, trace[0].upd, w);
    } else {
      var n := |order| - 1;
      var prefix := trace[..n + 1];
      assert Traced(order[..n], prefix, outs[..n], w);
      TracedSweeps(order[..n], prefix, outs[..n], w);
      TracedAt(order, trace, outs, w, n);
      VisitKeepsSweep(trace[0].mat, trace[n], trace[n + 1], order[n].0, w, order[n].1, outs[n], Logged(outs[..n]));
    }
  }

  /** The first `n` elements of `a` are those of `target`. */
  ghost predicate CopiedUpTo(a: array<Byte>, target: seq<Byte>, n: int)
    reads a
  {
    a.Length == |target| && 0 <= n <= |target| &&
    forall i :: 0 <= i < n ==> a[i] == target[i]
  }

  /** The allocation and copy loop of `resize`: four fresh arrays for a `w`
      by `h` grid, filled row by row from the old arrays of an `oldW` by
      `oldH` grid, keeping the overlap and leaving every other cell 0. */
  method CopyGrid(cells: array<Byte>, flags: array<Byte>, vel: array<Byte>, xvel: array<Byte>,
                  oldW: nat, oldH: nat, w: nat, h: nat)
    returns (newCells: array<Byte>, newUpdated: array<Byte>, newYVel: array<Byte>, newXVel: array<Byte>)
    requires cells.Length == oldW * oldH && flags.Length == oldW * oldH
    requires vel.Length == oldW * oldH && xvel.Length == oldW * oldH
    ensures fresh(newCells) && fresh(newUpdated) && fresh(newYVel) && fresh(newXVel)
    ensures newCells != newUpdated && newCells != newYVel && newCells != newXVel
    ensures newUpdated != newYVel && newUpdated != newXVel && newYVel != newXVel
    ensures newCells[..] == Clip(cells[..], oldW, oldH, w, h)
    ensures newUpdated[..] == Clip(flags[..], oldW, oldH, w, h)
    ensures newYVel[..] == Clip(vel[..], oldW, oldH, w, h)
    ensures newXVel[..] == Clip(xvel[..], oldW, oldH, w, h)
  {
    newCells := new Byte[w * h];
    newUpdated := new Byte[w * h];
    newYVel := new Byte[w * h];
    newXVel := new Byte[w * h];
    ghost var tm, tu := Clip(cells[..], oldW, oldH, w, h), Clip(flags[..], oldW, oldH, w, h);
    ghost var tv, tx := Clip(vel[..], oldW, oldH, w, h), Clip(xvel[..], oldW, oldH, w, h);
    for y := 0 to h
      invariant CopiedUpTo(newCells, tm, Flat(0, y, w)) && CopiedUpTo(newUpdated, tu, Flat(0, y, w))
      invariant CopiedUpTo(newYVel, tv, Flat(0, y, w)) && CopiedUpTo(newXVel, tx, Flat(0, y, w))
    {
      CopyRow(newCells, newUpdated, newYVel, newXVel, cells, flags, vel, xvel,
              tm, tu, tv, tx, oldW, oldH, w, h, y);
      FlatNextRow(y, w);
    }
    FlatRows(h, w);
    CopiedAll(newCells, tm);
    CopiedAll(newUpdated, tu);
    CopiedAll(newYVel, tv);
    CopiedAll(newXVel, tx);
  }

  /** The inner loop of the copy: row `y` of the new grid, cell by cell. */
  method CopyRow(newCells: array<Byte>, newUpdated: array<Byte>, newYVel: array<Byte>, newXVel: array<Byte>,
                 cells: array<Byte>, flags: array<Byte>, vel: array<Byte>, xvel: array<Byte>,
                 ghost tm: seq<Byte>, ghost tu: seq<Byte>, ghost tv: seq<Byte>, ghost tx: seq<Byte>,
                 oldW: nat, oldH: nat, w: nat, h: nat, y: nat)
    requires newCells != newUpdated && newCells != newYVel && newCells != newXVel
    requires newUpdated != newYVel && newUpdated != newXVel && newYVel != newXVel
    requires newCells !in {cells, flags, vel, xvel} && newUpdated !in {cells, flags, vel, xvel}
    requires newYVel !in {cells, flags, vel, xvel} && newXVel !in {cells, flags, vel, xvel}
    requires cells.Length == oldW * oldH && flags.Length == oldW * oldH
    requires vel.Length == oldW * oldH && xvel.Length == oldW * oldH
    requires tm == Clip(cells[..], oldW, oldH, w, h) && tu == Clip(flags[..], oldW, oldH, w, h)
    requires tv == Clip(vel[..], oldW, oldH, w, h) && tx == Clip(xvel[..], oldW, oldH, w, h)
    requires y < h
    requires CopiedUpTo(newCells, tm, Flat(0, y, w)) && CopiedUpTo(newUpdated, tu, Flat(0, y, w))
    requires CopiedUpTo(newYVel, tv, Flat(0, y, w)) && CopiedUpTo(newXVel, tx, Flat(0, y, w))
    modifies newCells, newUpdated, newYVel, newXVel
    ensures CopiedUpTo(newCells, tm, Flat(w, y, w)) && CopiedUpTo(newUpdated, tu, Flat(w, y, w))
    ensures CopiedUpTo(newYVel, tv, Flat(w, y, w)) && CopiedUpTo(newXVel, tx, Flat(w, y, w))
  {
    for x := 0 to w
      invariant CopiedUpTo(newCells, tm, Flat(x, y, w)) && CopiedUpTo(newUpdated, tu, Flat(x, y, w))
      invariant CopiedUpTo(newYVel, tv, Flat(x, y, w)) && CopiedUpTo(newXVel, tx, Flat(x, y, w))
    {
      CopyCells(newCells, newUpdated, newYVel, newXVel, cells, flags, vel, xvel,
                tm, tu, tv, tx, oldW, oldH, w, h, x, y);
    }
  }

  /** The body of the copy loop of `resize` for cell `(x, y)`: one copy per array. */
  method CopyCells(newCells: array<Byte>, newUpdated: array<Byte>, newYVel: array<Byte>, newXVel: array<Byte>,
                   cells: array<Byte>, flags: array<Byte>, vel: array<Byte>, xvel: array<Byte>,
                   ghost tm: seq<Byte>, ghost tu: seq<Byte>, ghost tv: seq<Byte>, ghost tx: seq<Byte>,
                   oldW: nat, oldH: nat, w: nat, h: nat, x: nat, y: nat)
    requires newCells != newUpdated && newCells != newYVel && newCells != newXVel
    requires newUpdated != newYVel && newUpdated != newXVel && newYVel != newXVel
    requires newCells !in {cells, flags, vel, xvel} && newUpdated !in {cells, flags, vel, xvel}
    requires newYVel !in {cells, flags, vel, xvel} && newXVel !in {cells, flags, vel, xvel}
    requires cells.Length == oldW * oldH && flags.Length == oldW * oldH
    requires vel.Length == oldW * oldH && xvel.Length == oldW * oldH
    requires tm == Clip(cells[..], oldW, oldH, w, h) && tu == Clip(flags[..], oldW, oldH, w, h)
    requires tv == Clip(vel[..], oldW, oldH, w, h) && tx == Clip(xvel[..], oldW, oldH, w, h)
    requires x < w && y < h
    requires CopiedUpTo(newCells, tm, Flat(x, y, w)) && CopiedUpTo(newUpdated, tu, Flat(x, y, w))
    requires CopiedUpTo(newYVel, tv, Flat(x, y, w)) && CopiedUpTo(newXVel, tx, Flat(x, y, w))
    modifies newCells, newUpdated, newYVel, newXVel
    ensures CopiedUpTo(newCells, tm, Flat(x, y, w) + 1) && CopiedUpTo(newUpdated, tu, Flat(x, y, w) + 1)
    ensures CopiedUpTo(newYVel, tv, Flat(x, y, w) + 1) && CopiedUpTo(newXVel, tx, Flat(x, y, w) + 1)
  {
    CopyCell(newCells, cells, tm, oldW, oldH, w, h, x, y);
    CopyCell(newUpdated, flags, tu, oldW, oldH, w, h, x, y);
    CopyCell(newYVel, vel, tv, oldW, oldH, w, h, x, y);
    CopyCell(newXVel, xvel, tx, oldW, oldH, w, h, x, y);
  }

  /** One statement of the copy loop of `resize`, `dst[x + y * w] =
      src[x + y * oldW]`, for a cell `(x, y)` inside the old grid; a cell
      outside it is left 0. */
  method CopyCell(dst: array<Byte>, src: array<Byte>, ghost target: seq<Byte>,
                  oldW: nat, oldH: nat, w: nat, h: nat, x: nat, y: nat)
    requires dst != src && src.Length == oldW * oldH && target == Clip(src[..], oldW, oldH, w, h)
    requires x < w && y < h && CopiedUpTo(dst, target, Flat(x, y, w))
    modifies dst
    ensures CopiedUpTo(dst, target, Flat(x, y, w) + 1)
  {
    var oldID := x + y * oldW;
    var newID := x + y * w;
    ClipAt(src[..], oldW, oldH, w, h, x, y);
    var v: Byte := 0;
    if x < oldW && y < oldH {
      v := src[oldID];
    }
    dst[newID] := v;
  }

  /** An array copied up to its length is its target. */
  lemma CopiedAll(a: array<Byte>, target: seq<Byte>)
    requires CopiedUpTo(a, target, |target|)
    ensures a[..] == target
  {
  }
}
