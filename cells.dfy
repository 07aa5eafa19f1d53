/** Cell values shared by every part of the simulation: the byte type of the
    typed arrays, the four material ids, and the reads and writes that
    JavaScript performs on a `Uint8Array` (an out-of-range read yields
    `undefined`, an out-of-range write is dropped). */
module Cells {

  /** One element of a `Uint8Array`. */
  type Byte = x: int | 0 <= x < 256

  const AIR: Byte := 0
  const SAND: Byte := 1
  const WATER: Byte := 2
  const WALL: Byte := 3

  /** The value of `undefined`: a read outside the array. It equals no byte,
      so it is neither AIR, WATER nor WALL. */
  const UNDEFINED: int := -1

  /** Side of a grid cell in display pixels. */
  const CELL_SIZE: int := 4

  /** `a[i]` on a typed array: the element, or `undefined` outside `[0, |a|)`. */
  function Probe(a: seq<Byte>, i: int): (v: int)
    ensures 0 <= i < |a| ==> v == a[i]
    ensures !(0 <= i < |a|) ==> v == UNDEFINED && v != AIR && v != WATER && v != WALL
  {
    if 0 <= i < |a| then a[i] else UNDEFINED
  }

  /** `a[i]` read and then stored into a typed array: `undefined` becomes 0. */
  function ReadOr0(a: seq<Byte>, i: int): Byte
  {
    if 0 <= i < |a| then a[i] else 0
  }

  /** `v += 1` on a `Uint8Array` element: wraps from 255 to 0. */
  function Inc(v: Byte): (r: Byte)
    ensures v < 255 ==> r == v + 1
    ensures v == 255 ==> r == 0
  {
    (v + 1) % 256
  }

  /** Number of cells of `a` holding `v`. */
  function Count(a: seq<Byte>, v: Byte): nat
  {
    if a == [] then 0 else Count(a[..|a| - 1], v) + (if a[|a| - 1] == v then 1 else 0)
  }

  function Indicator(b: bool): nat { if b then 1 else 0 }

  /** Overwriting one cell changes the count of `v` by what left and what came. */
  lemma {:induction false} CountUpdate(a: seq<Byte>, i: int, x: Byte, v: Byte)
    requires 0 <= i < |a|
    ensures Count(a[i := x], v) + Indicator(a[i] == v) == Count(a, v) + Indicator(x == v)
  {
    var n := |a| - 1;
    if i < n {
      assert a[i := x][..n] == a[..n][i := x];
      CountUpdate(a[..n], i, x, v);
    } else {
      assert a[i := x][..n] == a[..n];
    }
  }

  /** Relocating the content of `src` onto `dst` and clearing `src` to AIR:
      the count of `v` loses what `dst` held and gains one AIR. */
  lemma MoveCounts(a: seq<Byte>, src: int, dst: int, v: Byte)
    requires 0 <= src < |a| && 0 <= dst < |a| && src != dst
    ensures Count(a[dst := a[src]][src := AIR], v) + Indicator(a[dst] == v)
         == Count(a, v) + Indicator(v == AIR)
  {
    CountUpdate(a, dst, a[src], v);
    CountUpdate(a[dst := a[src]], src, AIR, v);
  }
}
