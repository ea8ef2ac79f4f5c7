/** What a click does to the grid: pressing one button (a bomb, or a flood fill
    from a bomb-free one), pressing the 3 x 3 block of an area click, the flag and
    question cycle of an alt click, and clearing question marks. */
module Clicks {
  import opened Counting
  import opened Buttons
  import opened Grid
  import opened Fill

  /** A primary click presses untouched and questioned buttons; flagged buttons
      are protected and pressed buttons stay as they are. */
  predicate Pressable(b: Button) {
    b.state == None || b.state == Questioned
  }

  /** `b` is what a flood fill from (x, y) leaves of `a`. */
  ghost predicate FilledFrom(a: seq<Button>, w: nat, h: nat, x: int, y: int, b: seq<Button>)
    requires |a| == w * h && InBounds(w, h, x, y)
  {
    exists order :: FillResult(a, w, h, x, y, b, order)
  }

  /** `b` is `a` after pressing (x, y): a bomb is pressed and nothing else happens;
      a bomb-free button is pressed and a flood fill runs from it. */
  ghost predicate PressedAt(a: seq<Button>, w: nat, h: nat, x: int, y: int, b: seq<Button>)
    requires |a| == w * h && InBounds(w, h, x, y)
  {
    var i := Idx(w, h, x, y);
    if a[i].hasBomb then
      b == a[i := Button(Down, true)]
    else
      FilledFrom(a[i := Button(Down, false)], w, h, x, y, b)
  }

  /** Presses the pressable button (x, y). */
  method Press(a: seq<Button>, w: nat, h: nat, x: int, y: int) returns (b: seq<Button>)
    requires |a| == w * h && InBounds(w, h, x, y)
    requires Pressable(a[Idx(w, h, x, y)])
    ensures PressedAt(a, w, h, x, y, b)
  {
    var i := Idx(w, h, x, y);
    if a[i].hasBomb {
      b := a[i := Button(Down, true)];
    } else {
      ghost var order;
      b, order := FloodFill(a[i := Button(Down, false)], w, h, x, y);
    }
  }

  /** `b` arises from `a` by pressing pressable buttons only: every other button,
      and every bomb under a button, is as it was. */
  ghost predicate Advances(a: seq<Button>, b: seq<Button>) {
    && |a| == |b|
    && forall i :: 0 <= i < |a| ==> b[i] == a[i] || (b[i] == Button(Down, a[i].hasBomb) && Pressable(a[i]))
  }

  /** Pressing (x, y) advances the grid, leaves (x, y) down, and presses no bomb
      other than the one that may lie under (x, y). */
  lemma PressedAdvances(a: seq<Button>, w: nat, h: nat, x: int, y: int, b: seq<Button>)
    requires |a| == w * h && InBounds(w, h, x, y)
    requires Pressable(a[Idx(w, h, x, y)])
    requires PressedAt(a, w, h, x, y, b)
    ensures Advances(a, b)
    ensures b[Idx(w, h, x, y)] == Button(Down, a[Idx(w, h, x, y)].hasBomb)
    ensures forall j :: 0 <= j < |a| && j != Idx(w, h, x, y) && a[j].hasBomb ==> b[j] == a[j]
  {
    var i := Idx(w, h, x, y);
    if !a[i].hasBomb {
      var a' := a[i := Button(Down, false)];
      var order :| FillResult(a', w, h, x, y, b, order);
      assert Reveals(a', b);
      forall j | 0 <= j < |a|
        ensures b[j] == a[j] || (b[j] == Button(Down, a[j].hasBomb) && Pressable(a[j]))
      {
        if j == i {
          assert b[j] == a'[j];
        } else {
          assert a'[j] == a[j];
        }
      }
    }
  }

  /** Advancing twice is advancing. */
  lemma AdvancesTrans(a: seq<Button>, b: seq<Button>, c: seq<Button>)
    requires Advances(a, b) && Advances(b, c)
    ensures Advances(a, c)
  {
    forall i | 0 <= i < |a|
      ensures c[i] == a[i] || (c[i] == Button(Down, a[i].hasBomb) && Pressable(a[i]))
    {
      if c[i] != b[i] {
        assert Pressable(b[i]);
        assert b[i] == a[i];
      }
    }
  }

  /** Advancing keeps the bomb layout, every flagged button, every pressed button and
      so the number of flags. */
  lemma AdvancesKeeps(a: seq<Button>, b: seq<Button>)
    requires Advances(a, b)
    ensures Bombs(b) == Bombs(a)
    ensures forall i :: 0 <= i < |a| && a[i].state == Flagged ==> b[i] == a[i]
    ensures forall i :: 0 <= i < |a| && a[i].state == Down ==> b[i].state == Down
    ensures Count(b, IsFlagged) == Count(a, IsFlagged)
  {
    CountPointwise(b, IsFlagged, a, IsFlagged);
  }

  /** ## Area click */

  /** The nine cells of the 3 x 3 block around (x, y), in row-major order. */
  function AreaCell(x: int, y: int, j: nat): (c: (int, int))
    requires j < 9
    ensures x - 1 <= c.0 <= x + 1 && y - 1 <= c.1 <= y + 1
  {
    (x + j % 3 - 1, y + j / 3 - 1)
  }

  /** Distinct steps visit distinct cells. */
  lemma AreaCellInjective(x: int, y: int, j: nat, k: nat)
    requires j < 9 && k < 9 && j != k
    ensures AreaCell(x, y, j) != AreaCell(x, y, k)
  {
    assert j == j / 3 * 3 + j % 3 && k == k / 3 * 3 + k % 3;
  }

  /** Every cell of the block is visited: (cx, cy) by step `AreaStepOf(x, y, cx, cy)`. */
  function AreaStepOf(x: int, y: int, cx: int, cy: int): (j: nat)
    requires InBlock(x, y, cx, cy)
    ensures j < 9 && AreaCell(x, y, j) == (cx, cy)
  {
    (cy - y + 1) * 3 + (cx - x + 1)
  }

  /** (cx, cy) lies in the 3 x 3 block centred on (x, y). */
  predicate InBlock(x: int, y: int, cx: int, cy: int) {
    x - 1 <= cx <= x + 1 && y - 1 <= cy <= y + 1
  }

  /** Block cell `j` is on the grid and hides a bomb that an area click presses. */
  predicate ExposedBomb(a: seq<Button>, w: nat, h: nat, x: int, y: int, j: nat)
    requires |a| == w * h && j < 9
  {
    var c := AreaCell(x, y, j);
    InBounds(w, h, c.0, c.1) && a[Idx(w, h, c.0, c.1)].hasBomb && Pressable(a[Idx(w, h, c.0, c.1)])
  }

  /** Block cell `j`, when on the grid and not flagged in `a`, is down in `b`. */
  predicate CellDone(a: seq<Button>, b: seq<Button>, w: nat, h: nat, x: int, y: int, j: nat)
    requires |a| == w * h && |b| == w * h && j < 9
  {
    var c := AreaCell(x, y, j);
    InBounds(w, h, c.0, c.1) && a[Idx(w, h, c.0, c.1)].state != Flagged ==> b[Idx(w, h, c.0, c.1)].state == Down
  }

  /** Block cell `j`, when on the grid and hiding a bomb, is unchanged in `b`. */
  predicate BombKept(a: seq<Button>, b: seq<Button>, w: nat, h: nat, x: int, y: int, j: nat)
    requires |a| == w * h && |b| == w * h && j < 9
  {
    var c := AreaCell(x, y, j);
    InBounds(w, h, c.0, c.1) && a[Idx(w, h, c.0, c.1)].hasBomb ==> b[Idx(w, h, c.0, c.1)] == a[Idx(w, h, c.0, c.1)]
  }

  /** One step of an area click: block cell `j` is pressed when it is on the grid and
      pressable, and skipped otherwise. */
  ghost predicate AreaStep(m: seq<Button>, w: nat, h: nat, x: int, y: int, j: nat, b: seq<Button>)
    requires |m| == w * h && j < 9
  {
    var c := AreaCell(x, y, j);
    if InBounds(w, h, c.0, c.1) && Pressable(m[Idx(w, h, c.0, c.1)]) then PressedAt(m, w, h, c.0, c.1, b) else b == m
  }

  /** `b` is `a` after the first `k` steps of an area click at (x, y). */
  ghost predicate AreaChain(a: seq<Button>, w: nat, h: nat, x: int, y: int, k: nat, b: seq<Button>)
    requires |a| == w * h && k <= 9
    decreases k
  {
    if k == 0 then b == a
    else exists m :: |m| == w * h && AreaChain(a, w, h, x, y, k - 1, m) && AreaStep(m, w, h, x, y, k - 1, b)
  }

  /** What the area-click loop keeps after its first `k` steps. */
  ghost predicate AreaInv(a: seq<Button>, w: nat, h: nat, x: int, y: int, k: nat, b: seq<Button>, hit: bool)
    requires |a| == w * h && k <= 9
  {
    && |b| == w * h
    && AreaChain(a, w, h, x, y, k, b)
    && Advances(a, b)
    && (forall j :: 0 <= j < k ==> CellDone(a, b, w, h, x, y, j))
    && (forall j :: k <= j < 9 ==> BombKept(a, b, w, h, x, y, j))
    && (hit <==> exists j :: 0 <= j < k && ExposedBomb(a, w, h, x, y, j))
  }

  lemma ChainStep(a: seq<Button>, w: nat, h: nat, x: int, y: int, k: nat, b: seq<Button>, b': seq<Button>)
    requires |a| == w * h && |b| == w * h && k < 9
    requires AreaChain(a, w, h, x, y, k, b) && AreaStep(b, w, h, x, y, k, b')
    ensures AreaChain(a, w, h, x, y, k + 1, b')
  {
  }

  /** A block cell that is skipped keeps AreaInv. */
  lemma AreaSkip(a: seq<Button>, w: nat, h: nat, x: int, y: int, k: nat, b: seq<Button>, hit: bool)
    requires |a| == w * h && k < 9
    requires AreaInv(a, w, h, x, y, k, b, hit)
    requires var c := AreaCell(x, y, k); !(InBounds(w, h, c.0, c.1) && Pressable(b[Idx(w, h, c.0, c.1)]))
    ensures AreaInv(a, w, h, x, y, k + 1, b, hit)
  {
    assert AreaStep(b, w, h, x, y, k, b);
    ChainStep(a, w, h, x, y, k, b, b);
    var c := AreaCell(x, y, k);
    if InBounds(w, h, c.0, c.1) {
      var i := Idx(w, h, c.0, c.1);
      assert b[i] == a[i] || b[i].state == Down;
      assert BombKept(a, b, w, h, x, y, k);
    }
    assert CellDone(a, b, w, h, x, y, k);
    assert !ExposedBomb(a, w, h, x, y, k);
  }

  /** Pressing a button elsewhere keeps the bombs of the later block cells. */
  lemma BombsKeptStep(a: seq<Button>, b: seq<Button>, b': seq<Button>, w: nat, h: nat, x: int, y: int, k: nat)
    requires |a| == w * h && |b| == w * h && |b'| == w * h && k < 9
    requires forall j :: k <= j < 9 ==> BombKept(a, b, w, h, x, y, j)
    requires InBounds(w, h, AreaCell(x, y, k).0, AreaCell(x, y, k).1)
    requires forall i :: 0 <= i < |b| && i != Idx(w, h, AreaCell(x, y, k).0, AreaCell(x, y, k).1) && b[i].hasBomb ==> b'[i] == b[i]
    ensures forall j :: k + 1 <= j < 9 ==> BombKept(a, b', w, h, x, y, j)
  {
    var c := AreaCell(x, y, k);
    forall j | k + 1 <= j < 9
      ensures BombKept(a, b', w, h, x, y, j)
    {
      AreaCellInjective(x, y, j, k);
      assert BombKept(a, b, w, h, x, y, j);
      var d := AreaCell(x, y, j);
      if InBounds(w, h, d.0, d.1) && Idx(w, h, d.0, d.1) == Idx(w, h, c.0, c.1) {
        IdxInjective(w, h, d.0, d.1, c.0, c.1);
      }
    }
  }

  /** Pressing a button keeps the earlier block cells down. */
  lemma CellsDoneStep(a: seq<Button>, b: seq<Button>, b': seq<Button>, w: nat, h: nat, x: int, y: int, k: nat)
    requires |a| == w * h && |b| == w * h && k < 9
    requires forall j :: 0 <= j < k ==> CellDone(a, b, w, h, x, y, j)
    requires Advances(b, b')
    requires var c := AreaCell(x, y, k); InBounds(w, h, c.0, c.1) ==> b'[Idx(w, h, c.0, c.1)].state == Down
    ensures forall j :: 0 <= j < k + 1 ==> CellDone(a, b', w, h, x, y, j)
  {
    AdvancesKeeps(b, b');
    forall j | 0 <= j < k + 1
      ensures CellDone(a, b', w, h, x, y, j)
    {
      if j < k {
        assert CellDone(a, b, w, h, x, y, j);
      }
    }
  }

  /** A block cell that is pressed keeps AreaInv, with `hit` set when it hid a bomb. */
  lemma AreaPressStep(a: seq<Button>, w: nat, h: nat, x: int, y: int, k: nat, b: seq<Button>, hit: bool, b': seq<Button>)
    requires |a| == w * h && k < 9
    requires AreaInv(a, w, h, x, y, k, b, hit)
    requires InBounds(w, h, AreaCell(x, y, k).0, AreaCell(x, y, k).1)
    requires Pressable(b[Idx(w, h, AreaCell(x, y, k).0, AreaCell(x, y, k).1)])
    requires PressedAt(b, w, h, AreaCell(x, y, k).0, AreaCell(x, y, k).1, b')
    ensures AreaInv(a, w, h, x, y, k + 1, b', hit || b[Idx(w, h, AreaCell(x, y, k).0, AreaCell(x, y, k).1)].hasBomb)
  {
    var c := AreaCell(x, y, k);
    var i := Idx(w, h, c.0, c.1);
    PressedAdvances(b, w, h, c.0, c.1, b');
    AdvancesTrans(a, b, b');
    assert AreaStep(b, w, h, x, y, k, b');
    ChainStep(a, w, h, x, y, k, b, b');
    CellsDoneStep(a, b, b', w, h, x, y, k);
    BombsKeptStep(a, b, b', w, h, x, y, k);
    HitStep(a, b, w, h, x, y, k, hit);
  }

  /** Pressing block cell `k` hits a bomb exactly when that cell is an exposed bomb. */
  lemma HitStep(a: seq<Button>, b: seq<Button>, w: nat, h: nat, x: int, y: int, k: nat, hit: bool)
    requires |a| == w * h && |b| == w * h && k < 9
    requires Advances(a, b) && BombKept(a, b, w, h, x, y, k)
    requires InBounds(w, h, AreaCell(x, y, k).0, AreaCell(x, y, k).1)
    requires Pressable(b[Idx(w, h, AreaCell(x, y, k).0, AreaCell(x, y, k).1)])
    requires hit <==> exists j :: 0 <= j < k && ExposedBomb(a, w, h, x, y, j)
    ensures (hit || b[Idx(w, h, AreaCell(x, y, k).0, AreaCell(x, y, k).1)].hasBomb) <==>
      exists j :: 0 <= j < k + 1 && ExposedBomb(a, w, h, x, y, j)
  {
    var i := Idx(w, h, AreaCell(x, y, k).0, AreaCell(x, y, k).1);
    assert b[i] == a[i];
    assert ExposedBomb(a, w, h, x, y, k) <==> b[i].hasBomb;
  }

  /** Presses the 3 x 3 block centred on (x, y) cell by cell in row-major order,
      skipping cells off the grid and cells that are not pressable when their turn
      comes; a bomb does not stop the click. Reports whether a bomb was pressed. */
  method AreaPress(a: seq<Button>, w: nat, h: nat, x: int, y: int) returns (b: seq<Button>, hit: bool)
    requires |a| == w * h
    ensures AreaInv(a, w, h, x, y, 9, b, hit)
  {
    b, hit := a, false;
    var k := 0;
    while k < 9
      invariant k <= 9
      invariant AreaInv(a, w, h, x, y, k, b, hit)
    {
      var c := AreaCell(x, y, k);
      if InBounds(w, h, c.0, c.1) && Pressable(b[Idx(w, h, c.0, c.1)]) {
        var pressedBomb := b[Idx(w, h, c.0, c.1)].hasBomb;
        var b' := Press(b, w, h, c.0, c.1);
        AreaPressStep(a, w, h, x, y, k, b, hit, b');
        b, hit := b', hit || pressedBomb;
      } else {
        AreaSkip(a, w, h, x, y, k, b, hit);
      }
      k := k + 1;
    }
  }

  /** After an area click every cell of the block that is on the grid and was not
      flagged is down, flagged cells are kept, and a bomb was hit exactly when the
      block held a bomb under an untouched or questioned button. */
  lemma AreaPressed(a: seq<Button>, w: nat, h: nat, x: int, y: int, b: seq<Button>, hit: bool)
    requires |a| == w * h
    requires AreaInv(a, w, h, x, y, 9, b, hit)
    ensures forall cx, cy :: InBlock(x, y, cx, cy) && InBounds(w, h, cx, cy) && a[Idx(w, h, cx, cy)].state != Flagged ==>
      b[Idx(w, h, cx, cy)].state == Down
    ensures hit <==> exists cx, cy ::
      InBlock(x, y, cx, cy) && InBounds(w, h, cx, cy) && a[Idx(w, h, cx, cy)].hasBomb && Pressable(a[Idx(w, h, cx, cy)])
    ensures Bombs(b) == Bombs(a) && Count(b, IsFlagged) == Count(a, IsFlagged)
    ensures forall i :: 0 <= i < |a| && a[i].state == Flagged ==> b[i] == a[i]
  {
    AdvancesKeeps(a, b);
    forall cx, cy | InBlock(x, y, cx, cy) && InBounds(w, h, cx, cy) && a[Idx(w, h, cx, cy)].state != Flagged
      ensures b[Idx(w, h, cx, cy)].state == Down
    {
      assert CellDone(a, b, w, h, x, y, AreaStepOf(x, y, cx, cy));
    }
    if hit {
      var j :| 0 <= j < 9 && ExposedBomb(a, w, h, x, y, j);
      var c := AreaCell(x, y, j);
      assert InBlock(x, y, c.0, c.1) && InBounds(w, h, c.0, c.1) && a[Idx(w, h, c.0, c.1)].hasBomb;
    } else {
      forall cx, cy | InBlock(x, y, cx, cy) && InBounds(w, h, cx, cy)
        ensures !(a[Idx(w, h, cx, cy)].hasBomb && Pressable(a[Idx(w, h, cx, cy)]))
      {
        assert !ExposedBomb(a, w, h, x, y, AreaStepOf(x, y, cx, cy));
      }
    }
  }

  /** ## Alt click */

  /** The display-state cycle of an alt click: None -> Flagged -> Questioned -> None
      with questions enabled, None -> Flagged -> None without; Down is unchanged. */
  function AltNext(s: ButtonState, questionsEnabled: bool): (t: ButtonState)
    ensures t == Down <==> s == Down
    ensures t == Flagged <==> s == None
    ensures t == Questioned ==> questionsEnabled
  {
    match s
    case None => Flagged
    case Flagged => if questionsEnabled then Questioned else None
    case Questioned => None
    case Down => Down
  }

  /** With questions enabled, three alt clicks bring a button that is not down back. */
  lemma AltCycleWithQuestions(s: ButtonState)
    requires s != Down
    ensures AltNext(AltNext(AltNext(s, true), true), true) == s
    ensures AltNext(s, true) != s && AltNext(AltNext(s, true), true) != s
  {
  }

  /** With questions disabled, two alt clicks bring an untouched or flagged button back,
      and a questioned button is never produced. */
  lemma AltCycleWithoutQuestions(s: ButtonState)
    requires s == None || s == Flagged
    ensures AltNext(AltNext(s, false), false) == s
    ensures AltNext(s, false) != s && AltNext(s, false) != Questioned
  {
  }

  /** ## Disabling questions */

  /** Turns every questioned button back into an untouched one, one button at a time. */
  method ClearQuestions(a: seq<Button>) returns (b: seq<Button>)
    ensures |b| == |a|
    ensures forall i :: 0 <= i < |a| ==> b[i] == (if a[i].state == Questioned then Button(None, a[i].hasBomb) else a[i])
    ensures forall i :: 0 <= i < |b| ==> b[i].state != Questioned
    ensures Bombs(b) == Bombs(a)
    ensures Count(b, IsFlagged) == Count(a, IsFlagged)
  {
    b := a;
    var i := 0;
    while i < |b|
      invariant 0 <= i <= |b| == |a|
      invariant forall j :: 0 <= j < i ==> b[j] == (if a[j].state == Questioned then Button(None, a[j].hasBomb) else a[j])
      invariant forall j :: i <= j < |b| ==> b[j] == a[j]
    {
      if b[i].state == Questioned {
        b := b[i := Button(None, b[i].hasBomb)];
      }
      i := i + 1;
    }
    CountPointwise(b, IsFlagged, a, IsFlagged);
  }
}
