/** The movement primitive of the per-tick sweep (`tryMove` in main.js) as
    value-level definitions: which cells a mover may enter, how far the
    distance search reaches, and what a completed relocation looks like. */
module Motion {
  import opened Cells

  /** A cell the mover may enter: AIR, or WATER when the mover is SAND.
      An `undefined` read (outside the grid) is blocked. */
  predicate Passable(m: seq<Byte>, i: int, mover: Byte)
  {
    Probe(m, i) == AIR || (Probe(m, i) == WATER && mover == SAND)
  }

  /** The flat index the search loop tests at distance `d`: the column offset
      is not scaled by `d`, the row offset is. */
  function ProbeAt(id: int, w: int, dx: int, dy: int, d: int): int
  {
    id + dx + dy * d * w
  }

  /** The flat index a mover lands on after `steps` steps along `(dx, dy)`.
      Unlike `ProbeAt`, the column offset is scaled too, so the two agree
      only when `dx == 0` or `steps == 1`; every move the rules make is of
      one of those two kinds. */
  function Target(id: int, w: int, dx: int, dy: int, steps: int): int
  {
    id + dx * steps + dy * steps * w
  }

  /** Largest distance the search may reach: `dist <= yVel / 18 + 1` with a
      real division is, for an integer `dist`, `dist <= yVel div 18 + 1`. */
  function SearchLimit(vel: Byte): (lim: nat)
    ensures 1 <= lim <= 15
    ensures vel < 18 <==> lim == 1
  {
    vel / 18 + 1
  }

  /** `steps` is what the distance search of `tryMove` finds from `id` along
      `(dx, dy)` for `mover` with velocity `vel`: the run of passable cells,
      cut at `SearchLimit(vel)`. */
  predicate SearchFound(m: seq<Byte>, id: int, w: int, dx: int, dy: int, mover: Byte, vel: Byte, steps: nat)
  {
    steps <= SearchLimit(vel) &&
    (forall k :: 1 <= k <= steps ==> Passable(m, ProbeAt(id, w, dx, dy, k), mover)) &&
    (steps == SearchLimit(vel) || !Passable(m, ProbeAt(id, w, dx, dy, steps + 1), mover))
  }

  /** One relocation performed during a tick. `onto` is what the destination
      held just before the mover arrived. */
  datatype Move = Move(src: int, dst: int, dx: int, dy: int, steps: nat, mover: Byte, onto: Byte)

  /** A straight fall of `steps` rows. */
  predicate IsFall(mv: Move)
  {
    mv.dx == 0 && mv.dy == 1
  }

  /** A water cell spreading two columns sideways. */
  predicate IsSpread(mv: Move)
  {
    mv.mover == WATER && mv.dy == 0 && (mv.dx == 2 || mv.dx == -2) && mv.steps == 1
  }

  /** A sand cell sliding one cell diagonally down, past a side cell that is
      not a wall in the grid `walls`. */
  predicate IsSlide(mv: Move, walls: seq<Byte>)
  {
    mv.mover == SAND && mv.dy == 1 && (mv.dx == 1 || mv.dx == -1) && mv.steps == 1 &&
    Probe(walls, mv.src + mv.dx) != WALL
  }

  /** What every relocation of a tick satisfies, for grid width `w` and the
      grid `walls` that has the same walls as the grid at the start of the tick. */
  predicate MoveOk(mv: Move, w: int, walls: seq<Byte>)
  {
    mv.src != mv.dst &&
    mv.mover != AIR && mv.mover != WALL &&
    (mv.onto == AIR || (mv.onto == WATER && mv.mover == SAND)) &&
    1 <= mv.steps <= 15 &&
    mv.dst == Target(mv.src, w, mv.dx, mv.dy, mv.steps) &&
    (IsFall(mv) || IsSpread(mv) || IsSlide(mv, walls))
  }

  /** Number of relocations in which sand landed on water. */
  function Landings(moves: seq<Move>): nat
  {
    if moves == [] then 0
    else Landings(moves[..|moves| - 1]) + Indicator(moves[|moves| - 1].onto == WATER)
  }

  /** Walls are exactly where they were at the start of the sweep. */
  ghost predicate SameWalls(start: seq<Byte>, mat: seq<Byte>)
  {
    |start| == |mat| &&
    forall i :: 0 <= i < |start| ==> (start[i] == WALL <==> mat[i] == WALL)
  }

  /** The same amount of sand as at the start; water lost, and AIR gained,
      only where sand landed on water. */
  ghost predicate MassKept(start: seq<Byte>, mat: seq<Byte>, moves: seq<Move>)
  {
    Count(mat, SAND) == Count(start, SAND) &&
    Count(mat, WATER) + Landings(moves) == Count(start, WATER) &&
    Count(mat, AIR) == Count(start, AIR) + Landings(moves)
  }

  /** Every destination is flagged; every source is AIR or flagged; no cell
      is a source twice or a source after being a destination. */
  ghost predicate MovedOnce(mat: seq<Byte>, upd: seq<Byte>, moves: seq<Move>)
  {
    |mat| == |upd| &&
    (forall k :: 0 <= k < |moves| ==> 0 <= moves[k].dst < |upd| && upd[moves[k].dst] == 1) &&
    (forall k :: 0 <= k < |moves| ==>
       0 <= moves[k].src < |mat| && (mat[moves[k].src] == AIR || upd[moves[k].src] == 1)) &&
    (forall j, k :: 0 <= j < k < |moves| ==>
       moves[k].src != moves[j].dst && moves[k].src != moves[j].src)
  }

  /** What holds between the grid `start` at the beginning of a sweep and the
      grid `mat` with flags `upd` after the relocations `moves`: `mat` is
      `start` with `moves` performed in order, each fitting the grid it was
      made in, and the walls, mass, move shapes and flags are as below. */
  ghost predicate SweepHolds(start: seq<Byte>, mat: seq<Byte>, upd: seq<Byte>, moves: seq<Move>, w: int)
  {
    |mat| == |upd| &&
    Replayable(start, moves, w) && mat == Replay(start, moves) &&
    SameWalls(start, mat) &&
    MassKept(start, mat, moves) &&
    (forall k :: 0 <= k < |moves| ==> MoveOk(moves[k], w, start)) &&
    MovedOnce(mat, upd, moves)
  }

  /** A sweep starts with the grid as it is. */
  lemma SweepStarts(start: seq<Byte>, upd: seq<Byte>, w: int)
    requires |upd| == |start|
    ensures SweepHolds(start, start, upd, [], w)
  {
  }

  /** The relocation `mv` fits the grid `mat` of width `w`: the mover is at
      the source, the destination holds what `mv` records, and the move is
      `MoveOk` with the slide guard read in `mat` itself. */
  predicate Applies(mat: seq<Byte>, w: int, mv: Move)
  {
    0 <= mv.src < |mat| && 0 <= mv.dst < |mat| &&
    mat[mv.src] == mv.mover && mat[mv.dst] == mv.onto &&
    MoveOk(mv, w, mat)
  }

  /** The conditions under which the sweep relocates `mv.mover` from
      `mv.src` onto `mv.dst` in the grid `mat` with flags `upd`: the move
      fits the grid and its source has not been moved into this tick. */
  ghost predicate Relocatable(mat: seq<Byte>, upd: seq<Byte>, w: int, mv: Move)
  {
    Applies(mat, w, mv) && |upd| == |mat| && upd[mv.src] == 0
  }

  /** The grid after relocation `mv`: the mover on the destination, AIR on the source. */
  function Relocated(mat: seq<Byte>, mv: Move): seq<Byte>
    requires 0 <= mv.src < |mat| && 0 <= mv.dst < |mat|
  {
    mat[mv.dst := mv.mover][mv.src := AIR]
  }

  /** The grid `start` after the relocations `moves`, one after the other;
      a move that does not fit the grid changes nothing. */
  ghost function Replay(start: seq<Byte>, moves: seq<Move>): (r: seq<Byte>)
    ensures |r| == |start|
  {
    if moves == [] then start
    else
      var m, mv := Replay(start, moves[..|moves| - 1]), moves[|moves| - 1];
      if 0 <= mv.src < |m| && 0 <= mv.dst < |m| then Relocated(m, mv) else m
  }

  /** Each of `moves` fits the grid that the moves before it produce from `start`. */
  ghost predicate Replayable(start: seq<Byte>, moves: seq<Move>, w: int)
  {
    moves == [] ||
    (Replayable(start, moves[..|moves| - 1], w) && Applies(Replay(start, moves[..|moves| - 1]), w, moves[|moves| - 1]))
  }

  /** A relocation that fits the replayed grid extends the replay by one move. */
  lemma MoveKeepsReplay(start: seq<Byte>, mat: seq<Byte>, upd: seq<Byte>,
                        moves: seq<Move>, w: int, mv: Move)
    requires Replayable(start, moves, w) && mat == Replay(start, moves) && Relocatable(mat, upd, w, mv)
    ensures Replayable(start, moves + [mv], w)
    ensures Replay(start, moves + [mv]) == Relocated(mat, mv)
  {
    assert (moves + [mv])[..|moves|] == moves;
  }

  /** A relocation keeps the walls: it only writes a non-wall mover onto AIR
      or WATER, and AIR onto the mover's old cell. */
  lemma MoveKeepsWalls(start: seq<Byte>, mat: seq<Byte>, upd: seq<Byte>, w: int, mv: Move)
    requires SameWalls(start, mat) && Relocatable(mat, upd, w, mv)
    ensures SameWalls(start, Relocated(mat, mv))
  {
  }

  /** A relocation moves mass: sand is conserved, and water turns into AIR
      exactly when sand lands on it. */
  lemma {:induction false} MoveKeepsMass(start: seq<Byte>, mat: seq<Byte>, upd: seq<Byte>,
                                         moves: seq<Move>, w: int, mv: Move)
    requires MassKept(start, mat, moves) && Relocatable(mat, upd, w, mv)
    ensures MassKept(start, Relocated(mat, mv), moves + [mv])
  {
    var moves' := moves + [mv];
    assert moves'[..|moves'| - 1] == moves;
    assert Landings(moves') == Landings(moves) + Indicator(mv.onto == WATER);
    MoveCounts(mat, mv.src, mv.dst, SAND);
    MoveCounts(mat, mv.src, mv.dst, WATER);
    MoveCounts(mat, mv.src, mv.dst, AIR);
  }

  /** A relocation of an unflagged cell, flagging its destination, keeps
      every cell to at most one relocation as a source. */
  lemma MoveKeepsOnce(mat: seq<Byte>, upd: seq<Byte>, moves: seq<Move>, w: int, mv: Move)
    requires MovedOnce(mat, upd, moves) && Relocatable(mat, upd, w, mv)
    ensures MovedOnce(Relocated(mat, mv), upd[mv.dst := 1], moves + [mv])
  {
    var moves' := moves + [mv];
    forall j, k | 0 <= j < k < |moves'|
      ensures moves'[k].src != moves'[j].dst && moves'[k].src != moves'[j].src
    {
      if k == |moves| {
        assert moves'[j] == moves[j];
      } else {
        assert moves'[j] == moves[j] && moves'[k] == moves[k];
      }
    }
  }

  /** A relocation of a well-formed move keeps every recorded move well formed. */
  lemma MoveKeepsOk(start: seq<Byte>, mat: seq<Byte>, upd: seq<Byte>,
                    moves: seq<Move>, w: int, mv: Move)
    requires SameWalls(start, mat) && Relocatable(mat, upd, w, mv)
    requires forall k :: 0 <= k < |moves| ==> MoveOk(moves[k], w, start)
    ensures forall k :: 0 <= k < |moves + [mv]| ==> MoveOk((moves + [mv])[k], w, start)
  {
    assert MoveOk(mv, w, start) by {
      if !IsFall(mv) && !IsSpread(mv) {
        var side := mv.src + mv.dx;
        assert Probe(start, side) != WALL by {
          if 0 <= side < |start| { assert start[side] == WALL <==> mat[side] == WALL; }
        }
      }
    }
    var moves' := moves + [mv];
    forall k | 0 <= k < |moves'| ensures MoveOk(moves'[k], w, start) {
      if k < |moves| { assert moves'[k] == moves[k]; }
    }
  }

  /** A relocation keeps the sweep's whole invariant. */
  lemma MoveKeepsSweep(start: seq<Byte>, mat: seq<Byte>, upd: seq<Byte>,
                       moves: seq<Move>, w: int, mv: Move)
    requires SweepHolds(start, mat, upd, moves, w) && Relocatable(mat, upd, w, mv)
    ensures SweepHolds(start, Relocated(mat, mv), upd[mv.dst := 1], moves + [mv], w)
  {
    MoveKeepsWalls(start, mat, upd, w, mv);
    MoveKeepsMass(start, mat, upd, moves, w, mv);
    MoveKeepsOnce(mat, upd, moves, w, mv);
    MoveKeepsOk(start, mat, upd, moves, w, mv);
    MoveKeepsReplay(start, mat, upd, moves, w, mv);
  }

  /** `cellSolid`: the cell at flat index `i` is a wall; `undefined` is not. */
  predicate Solid(m: seq<Byte>, i: int)
  {
    Probe(m, i) == WALL
  }

  /** The order of attempts for a cell at `id` visited on a row scanned in
      direction `tu` (+1 left to right, -1 right to left), in the grid `m` as
      it was when the cell was visited: a fall first; only if the cell below
      is blocked, water spreads by `2*tu` and then by `-2*tu`, sand slides by
      `tu` and then by `-tu`, each slide only past a side cell that is not a
      wall. */
  predicate FollowsAttemptOrder(mv: Move, id: int, tu: int, m: seq<Byte>, w: int)
  {
    mv.src == id &&
    (IsFall(mv) ||
     (!Passable(m, id + w, mv.mover) &&
      ((IsSpread(mv) && (mv.dx == 2 * tu || !Passable(m, id + 2 * tu, WATER))) ||
       (mv.mover == SAND && mv.dy == 1 && (mv.dx == tu || mv.dx == -tu) && !Solid(m, id + mv.dx) &&
        (mv.dx == tu || Solid(m, id + tu) || !Passable(m, id + tu + w, SAND))))))
  }

  /** Every attempt the rules make for `mover` at `id`, on a row scanned in
      direction `tu`, is blocked in the grid `m`: the fall, and then water's
      two spreads, or sand's two slides, each either guarded by a wall
      beside the cell or blocked. */
  predicate Stuck(m: seq<Byte>, id: int, w: int, tu: int, mover: Byte)
  {
    !Passable(m, id + w, mover) &&
    (mover == WATER ==> !Passable(m, id + 2 * tu, WATER) && !Passable(m, id - 2 * tu, WATER)) &&
    (mover == SAND ==>
       (Solid(m, id + tu) || !Passable(m, id + tu + w, SAND)) &&
       (Solid(m, id - tu) || !Passable(m, id - tu + w, SAND)))
  }
}
