/** The flood fill: pressing a bomb-free button with no adjacent bombs presses the
    connected region of such buttons and the numbered buttons around it. */
module Fill {
  import opened Counting
  import opened Buttons
  import opened Grid

  /** `b` arises from `a` by pressing untouched bomb-free buttons only. */
  ghost predicate Reveals(a: seq<Button>, b: seq<Button>) {
    && |a| == |b|
    && forall i :: 0 <= i < |a| ==> b[i] == a[i] || (a[i] == Button(None, false) && b[i] == Button(Down, false))
  }

  /** (x, y) is in the region a fill from (x0, y0) pressed while turning `a` into `b`:
      the start itself, or a button that was untouched and is now down. */
  ghost predicate InFill(a: seq<Button>, b: seq<Button>, w: nat, h: nat, x0: int, y0: int, x: int, y: int)
    requires |a| == w * h && |b| == w * h && InBounds(w, h, x, y)
  {
    (x, y) == (x0, y0) || (a[Idx(w, h, x, y)].state == None && b[Idx(w, h, x, y)].state == Down)
  }

  /** (x, y) is an untouched button of `b`. */
  predicate Hidden(b: seq<Button>, w: nat, h: nat, x: int, y: int)
    requires |b| == w * h
  {
    InBounds(w, h, x, y) && b[Idx(w, h, x, y)].state == None
  }

  /** (x, y) has been expanded in `b`: if no bomb is adjacent, none of its
      neighbours is untouched. */
  ghost predicate Expanded(l: seq<bool>, b: seq<Button>, w: nat, h: nat, x: int, y: int)
    requires |l| == w * h && |b| == w * h
  {
    AdjacentBombs(l, w, h, x, y) == 0 ==>
      forall nx, ny :: IsNeighbour(x, y, nx, ny) ==> !Hidden(b, w, h, nx, ny)
  }

  /** `order[k]` is a neighbour of an earlier entry that has no adjacent bombs. */
  ghost predicate Linked(l: seq<bool>, w: nat, h: nat, order: seq<(int, int)>, k: nat)
    requires |l| == w * h && k < |order|
  {
    exists j :: 0 <= j < k && IsNeighbour(order[j].0, order[j].1, order[k].0, order[k].1) &&
      AdjacentBombs(l, w, h, order[j].0, order[j].1) == 0
  }

  /** `order` is a reachability witness from (x0, y0): it starts there, and every
      later entry is an untouched button of `a` next to an earlier entry with no
      adjacent bombs in layout `l`. */
  ghost predicate FillPath(a: seq<Button>, l: seq<bool>, w: nat, h: nat, x0: int, y0: int, order: seq<(int, int)>)
    requires |a| == w * h && |l| == w * h
  {
    && |order| > 0 && order[0] == (x0, y0)
    && (forall k :: 0 <= k < |order| ==> InBounds(w, h, order[k].0, order[k].1))
    && (forall k :: 0 < k < |order| ==> a[Idx(w, h, order[k].0, order[k].1)].state == None)
    && (forall k {:trigger Linked(l, w, h, order, k)} :: 0 < k < |order| ==> Linked(l, w, h, order, k))
  }

  /** What the worklist loop keeps: only fill steps so far, `order` is a path witness,
      the worklist is part of it, and it lists exactly the pressed region. */
  ghost predicate FillState(a: seq<Button>, w: nat, h: nat, x0: int, y0: int,
                            b: seq<Button>, work: seq<(int, int)>, order: seq<(int, int)>)
    requires |a| == w * h
  {
    && Reveals(a, b)
    && FillPath(a, Bombs(a), w, h, x0, y0, order)
    && (forall k :: 0 <= k < |work| ==> work[k] in order)
    && (forall x, y :: InBounds(w, h, x, y) ==> (InFill(a, b, w, h, x0, y0, x, y) <==> (x, y) in order))
  }

  /** Extending the witness by an untouched neighbour of a zero entry keeps it a witness. */
  lemma PathStep(a: seq<Button>, l: seq<bool>, w: nat, h: nat, x0: int, y0: int,
                 order: seq<(int, int)>, ci: nat, nx: int, ny: int)
    requires |a| == w * h && |l| == w * h
    requires FillPath(a, l, w, h, x0, y0, order)
    requires ci < |order| && AdjacentBombs(l, w, h, order[ci].0, order[ci].1) == 0
    requires InBounds(w, h, nx, ny) && IsNeighbour(order[ci].0, order[ci].1, nx, ny)
    requires a[Idx(w, h, nx, ny)].state == None
    ensures FillPath(a, l, w, h, x0, y0, order + [(nx, ny)])
  {
    var order' := order + [(nx, ny)];
    forall k | 0 < k < |order'|
      ensures Linked(l, w, h, order', k)
    {
      if k < |order| {
        assert Linked(l, w, h, order, k);
        var j :| 0 <= j < k && IsNeighbour(order[j].0, order[j].1, order[k].0, order[k].1) &&
          AdjacentBombs(l, w, h, order[j].0, order[j].1) == 0;
        assert order'[j] == order[j] && order'[k] == order[k];
      } else {
        assert order'[ci] == order[ci] && order'[k] == (nx, ny);
      }
    }
  }

  /** Pressing (nx, ny) and appending it to the witness keeps the witness listing
      exactly the pressed region. */
  lemma RegionStep(a: seq<Button>, w: nat, h: nat, x0: int, y0: int,
                   b: seq<Button>, order: seq<(int, int)>, nx: int, ny: int)
    requires |a| == w * h && |b| == w * h && InBounds(w, h, nx, ny)
    requires a[Idx(w, h, nx, ny)].state == None
    requires forall x, y :: InBounds(w, h, x, y) ==> (InFill(a, b, w, h, x0, y0, x, y) <==> (x, y) in order)
    ensures forall x, y :: InBounds(w, h, x, y) ==>
      (InFill(a, b[Idx(w, h, nx, ny) := Button(Down, false)], w, h, x0, y0, x, y) <==> (x, y) in order + [(nx, ny)])
  {
    var b' := b[Idx(w, h, nx, ny) := Button(Down, false)];
    IdxInjectiveAt(w, h, nx, ny);
    forall x, y | InBounds(w, h, x, y)
      ensures InFill(a, b', w, h, x0, y0, x, y) <==> (x, y) in order + [(nx, ny)]
    {
      if (x, y) != (nx, ny) {
        assert b'[Idx(w, h, x, y)] == b[Idx(w, h, x, y)];
        assert InFill(a, b', w, h, x0, y0, x, y) == InFill(a, b, w, h, x0, y0, x, y);
      }
    }
  }

  /** Pressing an untouched neighbour of a zero button of the region keeps FillState. */
  lemma VisitStep(a: seq<Button>, w: nat, h: nat, x0: int, y0: int,
                  b: seq<Button>, work: seq<(int, int)>, order: seq<(int, int)>, ci: nat, nx: int, ny: int)
    requires |a| == w * h
    requires FillState(a, w, h, x0, y0, b, work, order)
    requires ci < |order| && AdjacentBombs(Bombs(a), w, h, order[ci].0, order[ci].1) == 0
    requires InBounds(w, h, nx, ny) && IsNeighbour(order[ci].0, order[ci].1, nx, ny)
    requires b[Idx(w, h, nx, ny)].state == None
    ensures a[Idx(w, h, nx, ny)] == Button(None, false)
    ensures FillState(a, w, h, x0, y0, b[Idx(w, h, nx, ny) := Button(Down, false)], work + [(nx, ny)], order + [(nx, ny)])
  {
    var l, i := Bombs(a), Idx(w, h, nx, ny);
    AdjacentBombsZero(l, w, h, order[ci].0, order[ci].1);
    assert !l[i];
    PathStep(a, l, w, h, x0, y0, order, ci, nx, ny);
    RegionStep(a, w, h, x0, y0, b, order, nx, ny);
    RevealsStep(a, b, i);
    var work', order' := work + [(nx, ny)], order + [(nx, ny)];
    forall k | 0 <= k < |work'|
      ensures work'[k] in order'
    {
      if k < |work| {
        assert work'[k] == work[k];
      }
    }
  }

  /** Pressing one more untouched bomb-free button is another fill step. */
  lemma RevealsStep(a: seq<Button>, b: seq<Button>, i: nat)
    requires Reveals(a, b) && i < |a|
    requires b[i].state == None && !a[i].hasBomb
    ensures Reveals(a, b[i := Button(Down, false)])
  {
  }

  /** `b'` has every button of `b` that is not untouched still not untouched. */
  ghost predicate Monotone(b: seq<Button>, b': seq<Button>) {
    |b| == |b'| && forall i :: 0 <= i < |b| && b[i].state != None ==> b'[i].state != None
  }

  /** Expansion survives any change that touches more buttons. */
  lemma ExpandedMonotone(l: seq<bool>, b: seq<Button>, b': seq<Button>, w: nat, h: nat, x: int, y: int)
    requires |l| == w * h && |b| == w * h && Monotone(b, b')
    requires Expanded(l, b, w, h, x, y)
    ensures Expanded(l, b', w, h, x, y)
  {
    if AdjacentBombs(l, w, h, x, y) == 0 {
      forall nx, ny | IsNeighbour(x, y, nx, ny)
        ensures !Hidden(b', w, h, nx, ny)
      {
        assert !Hidden(b, w, h, nx, ny);
      }
    }
  }

  /** What pressing the neighbours of `c` keeps after its first `j` neighbours: the
      fill state, monotonicity with respect to `b` (the grid before), the old worklist
      and witness as prefixes of the new, the same entries appended to both, the
      number of untouched buttons down by the number appended, and the first `j`
      neighbours no longer untouched. */
  ghost predicate PressInv(a: seq<Button>, w: nat, h: nat, x0: int, y0: int,
                           b: seq<Button>, work: seq<(int, int)>, order: seq<(int, int)>, c: (int, int), j: nat,
                           b': seq<Button>, work': seq<(int, int)>, order': seq<(int, int)>)
    requires |a| == w * h && j <= 8
  {
    && FillState(a, w, h, x0, y0, b', work', order')
    && Monotone(b, b')
    && |work| <= |work'| && work'[..|work|] == work
    && order' == order + work'[|work|..]
    && Count(b', IsHidden) + (|work'| - |work|) == Count(b, IsHidden)
    && Touched(b', w, h, c, j)
  }

  /** None of the first `j` neighbours of `c` is untouched. */
  predicate Touched(b: seq<Button>, w: nat, h: nat, c: (int, int), j: nat)
    requires |b| == w * h && j <= 8
  {
    forall k :: 0 <= k < j ==> !Hidden(b, w, h, c.0 + Offset(k).0, c.1 + Offset(k).1)
  }

  /** Neighbour `j` of `c` is not untouched: PressInv extends to it unchanged. */
  lemma SkipStep(a: seq<Button>, w: nat, h: nat, x0: int, y0: int,
                 b: seq<Button>, work: seq<(int, int)>, order: seq<(int, int)>, c: (int, int), j: nat,
                 b': seq<Button>, work': seq<(int, int)>, order': seq<(int, int)>)
    requires |a| == w * h && j < 8
    requires PressInv(a, w, h, x0, y0, b, work, order, c, j, b', work', order')
    requires !Hidden(b', w, h, c.0 + Offset(j).0, c.1 + Offset(j).1)
    ensures PressInv(a, w, h, x0, y0, b, work, order, c, j + 1, b', work', order')
  {
    TouchedSkip(b', w, h, c, j);
  }

  lemma TouchedSkip(b: seq<Button>, w: nat, h: nat, c: (int, int), j: nat)
    requires |b| == w * h && j < 8
    requires Touched(b, w, h, c, j) && !Hidden(b, w, h, c.0 + Offset(j).0, c.1 + Offset(j).1)
    ensures Touched(b, w, h, c, j + 1)
  {
  }

  /** Pressing neighbour `j` of `c`, when it is untouched, keeps PressInv. */
  lemma PressStep(a: seq<Button>, w: nat, h: nat, x0: int, y0: int,
                  b: seq<Button>, work: seq<(int, int)>, order: seq<(int, int)>, c: (int, int), ci: nat, j: nat,
                  b': seq<Button>, work': seq<(int, int)>, order': seq<(int, int)>)
    requires |a| == w * h && j < 8
    requires PressInv(a, w, h, x0, y0, b, work, order, c, j, b', work', order')
    requires ci < |order| && order[ci] == c && AdjacentBombs(Bombs(a), w, h, c.0, c.1) == 0
    requires Hidden(b', w, h, c.0 + Offset(j).0, c.1 + Offset(j).1)
    ensures PressInv(a, w, h, x0, y0, b, work, order, c, j + 1,
                     b'[Idx(w, h, c.0 + Offset(j).0, c.1 + Offset(j).1) := Button(Down, false)],
                     work' + [(c.0 + Offset(j).0, c.1 + Offset(j).1)],
                     order' + [(c.0 + Offset(j).0, c.1 + Offset(j).1)])
  {
    var nx, ny := c.0 + Offset(j).0, c.1 + Offset(j).1;
    var i := Idx(w, h, nx, ny);
    var b'', work'', order'' := b'[i := Button(Down, false)], work' + [(nx, ny)], order' + [(nx, ny)];
    assert order'[ci] == c;
    VisitStep(a, w, h, x0, y0, b', work', order', ci, nx, ny);
    CountUpdate(b', i, Button(Down, false), IsHidden);
    assert work''[..|work|] == work'[..|work|];
    assert work''[|work|..] == work'[|work|..] + [(nx, ny)];
    TouchedStep(b', w, h, c, j);
  }

  /** Pressing neighbour `j` of `c` leaves neighbours `0..j` not untouched. */
  lemma TouchedStep(b: seq<Button>, w: nat, h: nat, c: (int, int), j: nat)
    requires |b| == w * h && j < 8
    requires Touched(b, w, h, c, j)
    requires Hidden(b, w, h, c.0 + Offset(j).0, c.1 + Offset(j).1)
    ensures Touched(b[Idx(w, h, c.0 + Offset(j).0, c.1 + Offset(j).1) := Button(Down, false)], w, h, c, j + 1)
  {
    var b' := b[Idx(w, h, c.0 + Offset(j).0, c.1 + Offset(j).1) := Button(Down, false)];
    forall k | 0 <= k < j + 1
      ensures !Hidden(b', w, h, c.0 + Offset(k).0, c.1 + Offset(k).1)
    {
      if k < j {
        assert !Hidden(b, w, h, c.0 + Offset(k).0, c.1 + Offset(k).1);
      }
    }
  }

  /** A button none of whose eight offsets is untouched has no untouched neighbour. */
  lemma OffsetsCover(b: seq<Button>, w: nat, h: nat, c: (int, int))
    requires |b| == w * h
    requires Touched(b, w, h, c, 8)
    ensures forall nx, ny :: IsNeighbour(c.0, c.1, nx, ny) ==> !Hidden(b, w, h, nx, ny)
  {
    forall nx, ny | IsNeighbour(c.0, c.1, nx, ny)
      ensures !Hidden(b, w, h, nx, ny)
    {
      var k := NeighbourOffset(c.0, c.1, nx, ny);
      assert !Hidden(b, w, h, c.0 + Offset(k).0, c.1 + Offset(k).1);
    }
  }

  /** One worklist step: presses every untouched neighbour of the region's entry
      `order[ci]`, which has no adjacent bombs, and appends each to the worklist and
      to the witness. */
  method PressNeighbours(a: seq<Button>, w: nat, h: nat, x0: int, y0: int,
                         b: seq<Button>, work: seq<(int, int)>, ghost order: seq<(int, int)>, c: (int, int), ghost ci: nat)
    returns (b': seq<Button>, work': seq<(int, int)>, ghost order': seq<(int, int)>)
    requires |a| == w * h
    requires FillState(a, w, h, x0, y0, b, work, order)
    requires ci < |order| && order[ci] == c && AdjacentBombs(Bombs(a), w, h, c.0, c.1) == 0
    ensures PressInv(a, w, h, x0, y0, b, work, order, c, 8, b', work', order')
    ensures Expanded(Bombs(a), b', w, h, c.0, c.1)
  {
    b', work', order' := b, work, order;
    var j := 0;
    while j < 8
      invariant j <= 8
      invariant PressInv(a, w, h, x0, y0, b, work, order, c, j, b', work', order')
    {
      var nx, ny := c.0 + Offset(j).0, c.1 + Offset(j).1;
      if Hidden(b', w, h, nx, ny) {
        PressStep(a, w, h, x0, y0, b, work, order, c, ci, j, b', work', order');
        b' := b'[Idx(w, h, nx, ny) := Button(Down, false)];
        work' := work' + [(nx, ny)];
        order' := order' + [(nx, ny)];
      } else {
        SkipStep(a, w, h, x0, y0, b, work, order, c, j, b', work', order');
      }
      j := j + 1;
    }
    OffsetsCover(b', w, h, c);
  }

  /** The worklist flood fill. The start (x0, y0) is already down and bomb-free; it
      and every pressed button with no adjacent bombs have their untouched
      neighbours pressed. Flagged and questioned buttons are never pressed. */
  method FloodFill(a: seq<Button>, w: nat, h: nat, x0: int, y0: int) returns (b: seq<Button>, ghost order: seq<(int, int)>)
    requires |a| == w * h && InBounds(w, h, x0, y0)
    requires a[Idx(w, h, x0, y0)] == Button(Down, false)
    ensures Reveals(a, b)
    ensures forall x, y :: InBounds(w, h, x, y) && InFill(a, b, w, h, x0, y0, x, y) ==> Expanded(Bombs(a), b, w, h, x, y)
    ensures FillResult(a, w, h, x0, y0, b, order)
  {
    var l := Bombs(a);
    b := a;
    var work := [(x0, y0)];
    order := [(x0, y0)];
    while work != []
      invariant FillState(a, w, h, x0, y0, b, work, order)
      invariant forall x, y :: (x, y) in order && (x, y) !in work ==> Expanded(l, b, w, h, x, y)
      decreases Count(b, IsHidden), |work|
    {
      ghost var work0, order0, b0 := work, order, b;
      var c := work[|work| - 1];
      work := work[..|work| - 1];
      assert work0 == work + [c];
      ghost var ci :| 0 <= ci < |order| && order[ci] == c;
      if AdjacentBombs(l, w, h, c.0, c.1) == 0 {
        ghost var work1 := work;
        b, work, order := PressNeighbours(a, w, h, x0, y0, b, work, order, c, ci);
        forall x, y | (x, y) in order && (x, y) !in work
          ensures Expanded(l, b, w, h, x, y)
        {
          assert (x, y) in order0 + work[|work1|..];
          assert (x, y) !in work[|work1|..];
          assert (x, y) in order0;
          assert work[..|work1|] == work1;
          if (x, y) != c {
            assert (x, y) !in work1;
            assert (x, y) !in work0;
            ExpandedMonotone(l, b0, b, w, h, x, y);
          }
        }
      }
    }
  }

  /** ## The pressed region is the least closed region

      A region is closed when, with every member that has no adjacent bombs, it
      also holds every untouched neighbour of that member. */
  ghost predicate Closed(a: seq<Button>, w: nat, h: nat, r: set<(int, int)>)
    requires |a| == w * h
  {
    forall x, y, nx, ny ::
      ((x, y) in r && InBounds(w, h, x, y) && AdjacentBombs(Bombs(a), w, h, x, y) == 0 &&
       IsNeighbour(x, y, nx, ny) && Hidden(a, w, h, nx, ny)) ==> (nx, ny) in r
  }

  /** Every entry of a fill witness lies in every closed region that holds the start. */
  lemma {:induction false} FillPathInClosed(a: seq<Button>, w: nat, h: nat, x0: int, y0: int,
                                            order: seq<(int, int)>, r: set<(int, int)>, n: nat)
    requires |a| == w * h && FillPath(a, Bombs(a), w, h, x0, y0, order)
    requires (x0, y0) in r && Closed(a, w, h, r)
    requires n <= |order|
    ensures forall k :: 0 <= k < n ==> order[k] in r
  {
    if n > 0 {
      FillPathInClosed(a, w, h, x0, y0, order, r, n - 1);
      var k := n - 1;
      if k > 0 {
        assert Linked(Bombs(a), w, h, order, k);
        var j :| 0 <= j < k && IsNeighbour(order[j].0, order[j].1, order[k].0, order[k].1) &&
          AdjacentBombs(Bombs(a), w, h, order[j].0, order[j].1) == 0;
        assert order[j] in r;
        assert Hidden(a, w, h, order[k].0, order[k].1);
      }
    }
  }

  /** What a flood fill from (x0, y0) promises about the grid `b` it leaves. */
  ghost predicate FillResult(a: seq<Button>, w: nat, h: nat, x0: int, y0: int, b: seq<Button>, order: seq<(int, int)>)
    requires |a| == w * h && InBounds(w, h, x0, y0)
  {
    && Reveals(a, b)
    && FillPath(a, Bombs(a), w, h, x0, y0, order)
    && (forall x, y :: InBounds(w, h, x, y) ==> (InFill(a, b, w, h, x0, y0, x, y) <==> (x, y) in order))
    && (forall x, y :: InBounds(w, h, x, y) && InFill(a, b, w, h, x0, y0, x, y) ==> Expanded(Bombs(a), b, w, h, x, y))
  }

  /** The buttons a flood fill leaves pressed form a closed region holding the start,
      and lie in every closed region holding the start: the fill presses exactly the
      connected region of buttons with no adjacent bombs and its numbered border. */
  lemma FillIsLeastClosed(a: seq<Button>, w: nat, h: nat, x0: int, y0: int, b: seq<Button>,
                          order: seq<(int, int)>, r: set<(int, int)>)
    requires |a| == w * h && InBounds(w, h, x0, y0)
    requires FillResult(a, w, h, x0, y0, b, order)
    ensures Closed(a, w, h, set k | 0 <= k < |order| :: order[k])
    ensures (x0, y0) in r && Closed(a, w, h, r) ==> forall k :: 0 <= k < |order| ==> order[k] in r
  {
    var p := set k | 0 <= k < |order| :: order[k];
    forall x, y, nx, ny |
      (x, y) in p && InBounds(w, h, x, y) && AdjacentBombs(Bombs(a), w, h, x, y) == 0 &&
      IsNeighbour(x, y, nx, ny) && Hidden(a, w, h, nx, ny)
      ensures (nx, ny) in p
    {
      assert InFill(a, b, w, h, x0, y0, x, y);
      assert Expanded(Bombs(a), b, w, h, x, y);
      assert !Hidden(b, w, h, nx, ny);
      assert InFill(a, b, w, h, x0, y0, nx, ny);
      var k :| 0 <= k < |order| && order[k] == (nx, ny);
    }
    if (x0, y0) in r && Closed(a, w, h, r) {
      FillPathInClosed(a, w, h, x0, y0, order, r, |order|);
    }
  }
}
