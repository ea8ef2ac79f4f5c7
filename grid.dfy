/** The grid geometry: coordinates on a row-major grid of buttons, the eight
    neighbours of a button, adjacent-bomb counts, and the placement of bombs. */
module Grid {
  import opened Counting
  import opened Buttons

  /** Whether (x, y) lies on a grid `w` buttons wide and `h` buttons tall. */
  predicate InBounds(w: nat, h: nat, x: int, y: int) {
    0 <= x < w && 0 <= y < h
  }

  lemma RowMajorBound(w: nat, h: nat, x: int, y: int)
    requires InBounds(w, h, x, y)
    ensures 0 <= y * w + x < w * h
  {
    assert y * w + x < (y + 1) * w;
    assert (y + 1) * w <= h * w;
  }

  /** The row-major position of (x, y): button (x, y) is character `y * w + x` of
      the button string. */
  function Idx(w: nat, h: nat, x: int, y: int): (i: nat)
    requires InBounds(w, h, x, y)
    ensures i < w * h
  {
    RowMajorBound(w, h, x, y);
    y * w + x
  }

  /** A later row starts at least one full row further on. */
  lemma {:induction false} RowGap(w: nat, a: nat, b: nat)
    requires a < b
    ensures a * w + w <= b * w
    decreases b - a
  {
    if a + 1 < b {
      RowGap(w, a + 1, b);
    }
  }

  /** Distinct coordinates have distinct row-major positions. */
  lemma IdxInjective(w: nat, h: nat, x1: int, y1: int, x2: int, y2: int)
    requires InBounds(w, h, x1, y1) && InBounds(w, h, x2, y2)
    requires Idx(w, h, x1, y1) == Idx(w, h, x2, y2)
    ensures x1 == x2 && y1 == y2
  {
    if y1 < y2 {
      RowGap(w, y1, y2);
      assert false;
    } else if y2 < y1 {
      RowGap(w, y2, y1);
      assert false;
    }
  }

  /** The same, for every coordinate pair at once. */
  lemma IdxInjectiveAt(w: nat, h: nat, x: int, y: int)
    requires InBounds(w, h, x, y)
    ensures forall x', y' :: InBounds(w, h, x', y') && (x', y') != (x, y) ==> Idx(w, h, x', y') != Idx(w, h, x, y)
  {
    forall x', y' | InBounds(w, h, x', y') && Idx(w, h, x', y') == Idx(w, h, x, y)
      ensures (x', y') == (x, y)
    {
      IdxInjective(w, h, x', y', x, y);
    }
  }

  /** 8-connectivity: (nx, ny) is one of the eight buttons around (x, y). */
  predicate IsNeighbour(x: int, y: int, nx: int, ny: int) {
    (nx, ny) != (x, y) && x - 1 <= nx <= x + 1 && y - 1 <= ny <= y + 1
  }

  /** The eight neighbour offsets, in row-major order. */
  function Offset(j: nat): (d: (int, int))
    requires j < 8
    ensures IsNeighbour(0, 0, d.0, d.1)
  {
    if j == 0 then (-1, -1) else if j == 1 then (0, -1) else if j == 2 then (1, -1)
    else if j == 3 then (-1, 0) else if j == 4 then (1, 0)
    else if j == 5 then (-1, 1) else if j == 6 then (0, 1) else (1, 1)
  }

  /** Every neighbour is reached by one of the eight offsets. */
  lemma NeighbourOffset(x: int, y: int, nx: int, ny: int) returns (j: nat)
    requires IsNeighbour(x, y, nx, ny)
    ensures j < 8 && (nx, ny) == (x + Offset(j).0, y + Offset(j).1)
  {
    var dx, dy := nx - x, ny - y;
    j := if dy == -1 then dx + 1 else if dy == 0 then (if dx == -1 then 3 else 4) else dx + 6;
  }

  /** The bomb layout of a grid. */
  function Bombs(b: seq<Button>): (l: seq<bool>)
    ensures |l| == |b|
    ensures forall i :: 0 <= i < |b| ==> l[i] == b[i].hasBomb
  {
    seq(|b|, i requires 0 <= i < |b| => b[i].hasBomb)
  }

  function BombAt(l: seq<bool>, w: nat, h: nat, x: int, y: int): nat
    requires |l| == w * h
  {
    if InBounds(w, h, x, y) && l[Idx(w, h, x, y)] then 1 else 0
  }

  /** The bombs among the first `k` neighbours of (x, y). */
  function AdjacentFrom(l: seq<bool>, w: nat, h: nat, x: int, y: int, k: nat): (n: nat)
    requires |l| == w * h && k <= 8
    ensures n <= k
    ensures n == 0 <==> forall j :: 0 <= j < k ==> BombAt(l, w, h, x + Offset(j).0, y + Offset(j).1) == 0
  {
    if k == 0 then 0 else AdjacentFrom(l, w, h, x, y, k - 1) + BombAt(l, w, h, x + Offset(k - 1).0, y + Offset(k - 1).1)
  }

  /** The number shown on a pressed bomb-free button: the bombs among its neighbours. */
  function AdjacentBombs(l: seq<bool>, w: nat, h: nat, x: int, y: int): (n: nat)
    requires |l| == w * h
    ensures n <= 8
  {
    AdjacentFrom(l, w, h, x, y, 8)
  }

  /** A button with no adjacent bombs has only bomb-free neighbours, and a button
      whose neighbours are all bomb-free has no adjacent bombs. */
  lemma AdjacentBombsZero(l: seq<bool>, w: nat, h: nat, x: int, y: int)
    requires |l| == w * h
    ensures AdjacentBombs(l, w, h, x, y) == 0 <==>
      forall nx, ny :: InBounds(w, h, nx, ny) && IsNeighbour(x, y, nx, ny) ==> !l[Idx(w, h, nx, ny)]
  {
    if AdjacentBombs(l, w, h, x, y) == 0 {
      forall nx, ny | InBounds(w, h, nx, ny) && IsNeighbour(x, y, nx, ny)
        ensures !l[Idx(w, h, nx, ny)]
      {
        var j := NeighbourOffset(x, y, nx, ny);
        assert BombAt(l, w, h, x + Offset(j).0, y + Offset(j).1) == 0;
      }
    } else {
      var j :| 0 <= j < 8 && BombAt(l, w, h, x + Offset(j).0, y + Offset(j).1) != 0;
      var nx, ny := x + Offset(j).0, y + Offset(j).1;
      assert InBounds(w, h, nx, ny) && IsNeighbour(x, y, nx, ny) && l[Idx(w, h, nx, ny)];
    }
  }

  /** ## Bomb placement */

  predicate IsTrue(v: bool) { v }

  /** Scatters exactly `count` bombs over `n` buttons, never on the button at
      `exclude`. Each bomb goes on a bomb-free button chosen by `:|`, which stands
      for the engine's random source. */
  method PlaceBombs(n: nat, exclude: nat, count: nat) returns (layout: seq<bool>)
    requires exclude < n && count < n
    ensures |layout| == n
    ensures !layout[exclude]
    ensures Count(layout, IsTrue) == count
  {
    layout := seq(n, _ => false);
    CountNone(layout, IsTrue);
    var placed := 0;
    while placed < count
      invariant placed <= count
      invariant |layout| == n && !layout[exclude]
      invariant Count(layout, IsTrue) == placed
    {
      CountShortExcept(layout, IsTrue, exclude);
      var i :| 0 <= i < n && i != exclude && !layout[i];
      CountUpdate(layout, i, true, IsTrue);
      layout := layout[i := true];
      placed := placed + 1;
    }
  }

  /** A grid with its bombs replaced by `layout` and its display states kept. */
  function WithBombs(b: seq<Button>, layout: seq<bool>): (r: seq<Button>)
    requires |layout| == |b|
    ensures |r| == |b| && Bombs(r) == layout
    ensures forall i :: 0 <= i < |b| ==> r[i].state == b[i].state
    ensures Count(r, HasBomb) == Count(layout, IsTrue)
  {
    var r := seq(|b|, i requires 0 <= i < |b| => Button(b[i].state, layout[i]));
    CountPointwise(r, HasBomb, layout, IsTrue);
    r
  }
}
