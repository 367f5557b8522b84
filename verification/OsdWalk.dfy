/**
 The block-wise walk over the OSD picture: a pointer moves through 5 by 4 blocks and adds a constant to each
 pixel it stands on.  Pixels are 32-bit words.  The walk is modelled for pictures of any size; where the sizes do
 not divide it drifts, and may leave the picture.
 */
module OsdWalk {
  import opened Machine
  import opened Tally

  const X_AXIS := 5
  const Y_AXIS := 4

  type Pixel = U32

  /** What pass i adds, modulo the width of a word. */
  function Delta(i: nat): int { 0x8000_0000 - i * 0x1000_0000 }

  function Plus(pixel: Pixel, delta: int): Pixel { (pixel + delta) % TWO_TO_THE_32 }

  /** Adding several times. */
  function Times(pixel: Pixel, delta: int, count: int): Pixel {
    if count <= 0 then pixel else Plus(Times(pixel, delta, count - 1), delta)
  }

  // The picture, row by row.

  /** The position of row r and column c. */
  function Index(xres: nat, r: nat, c: nat): nat { r * xres + c }

  lemma IndexInRange(xres: nat, yres: nat, r: nat, c: nat)
    requires r < yres && c < xres
    ensures Index(xres, r, c) < xres * yres
  {
    LaterRow(xres, r, yres);
  }

  lemma IndexIsInjective(xres: nat, r: nat, c: nat, r': nat, c': nat)
    requires c < xres && c' < xres && Index(xres, r, c) == Index(xres, r', c')
    ensures r == r' && c == c'
  {
    if r < r' {
      LaterRow(xres, r, r');
    } else if r' < r {
      LaterRow(xres, r', r);
    }
  }

  lemma EveryPositionHasRowAndColumn(xres: nat, yres: nat, d: nat) returns (r: nat, c: nat)
    requires d < xres * yres
    ensures r < yres && c < xres && Index(xres, r, c) == d
  {
    r, c := d / xres, d % xres;
    if yres < r {
      LaterRow(xres, yres, r);
    }
  }

  ghost function CountAt(counts: seq<int>, origin: nat, xres: nat, yres: nat, r: nat, c: nat): int
    requires origin + xres * yres <= |counts| && r < yres && c < xres
  {
    IndexInRange(xres, yres, r, c);
    counts[origin + Index(xres, r, c)]
  }

  lemma OtherCount(s: seq<int>, t: seq<int>, origin: nat, xres: nat, yres: nat, r: nat, c: nat, r': nat, c': nat)
    requires origin + xres * yres <= |s| && r < yres && c < xres && r' < yres && c' < xres
    requires origin + Index(xres, r, c) < |s| && t == Bumped(s, origin + Index(xres, r, c))
    ensures CountAt(t, origin, xres, yres, r', c')
            == CountAt(s, origin, xres, yres, r', c') + if r' == r && c' == c then 1 else 0
  {
    IndexInRange(xres, yres, r', c');
    if Index(xres, r, c) == Index(xres, r', c') {
      IndexIsInjective(xres, r, c, r', c');
    }
  }

  lemma BumpCount(s: seq<int>, t: seq<int>, origin: nat, xres: nat, yres: nat, r: nat, c: nat)
    requires origin + xres * yres <= |s| && r < yres && c < xres
    requires origin + Index(xres, r, c) < |s| && t == Bumped(s, origin + Index(xres, r, c))
    ensures forall r': nat, c': nat :: r' < yres && c' < xres ==>
              CountAt(t, origin, xres, yres, r', c')
              == CountAt(s, origin, xres, yres, r', c') + if r' == r && c' == c then 1 else 0
  {
    forall r': nat, c': nat | r' < yres && c' < xres
      ensures CountAt(t, origin, xres, yres, r', c')
              == CountAt(s, origin, xres, yres, r', c') + if r' == r && c' == c then 1 else 0
    {
      OtherCount(s, t, origin, xres, yres, r, c, r', c');
    }
  }

  // Where the pointer goes, for any size.

  datatype Picture = Picture(xres: nat, yres: nat) {
    /** The sizes and their products are unsigned 32-bit. */
    predicate Valid() {
      xres * (X_AXIS - 1) < TWO_TO_THE_32 && xres * yres < TWO_TO_THE_32
    }

    predicate Divides() {
      xres % 5 == 0 && yres % 4 == 0
    }
  }

  function BlockWidth(p: Picture): nat { p.xres / X_AXIS }

  function BlockHeight(p: Picture): nat { p.yres / Y_AXIS }

  /** How far the pointer skips behind a row of a block. */
  function RowSkip(p: Picture): nat { p.xres * (X_AXIS - 1) / X_AXIS }

  /** How far the pointer moves from row to row of a block. */
  function Stride(p: Picture): nat { BlockWidth(p) + RowSkip(p) }

  /** How far the pointer goes back behind a block that another one follows in the same line. */
  function BlockSkip(p: Picture): nat { p.xres * p.yres / Y_AXIS }

  /** How the pointer moves from the end of a block to the beginning of block l. */
  function BlockMove(p: Picture, l: nat): int {
    if l % X_AXIS != 0 then BlockWidth(p) - BlockSkip(p) else 0 - RowSkip(p)
  }

  /** Where block l begins, in pixels from the beginning of the picture. */
  function BlockBegin(p: Picture, l: nat): int {
    if l == 0 then 0 else BlockBegin(p, l - 1) + BlockHeight(p) * Stride(p) + BlockMove(p, l)
  }

  /** The k-th pixel in row j of block l. */
  function Position(p: Picture, l: nat, j: nat, k: nat): int {
    BlockBegin(p, l) + j * Stride(p) + k
  }

  /** All pixels that the walk touches are in a memory of n pixels, in which the picture begins at origin. */
  ghost predicate Mapped(p: Picture, origin: nat, n: nat) {
    forall l: nat, j: nat, k: nat :: l < X_AXIS * Y_AXIS && j < BlockHeight(p) && k < BlockWidth(p) ==>
      0 <= origin + Position(p, l, j, k) < n
  }

  /** Each pixel holds what it was and the constant as often as it was counted. */
  ghost predicate Added(delta: int, was: seq<Pixel>, now: seq<Pixel>, counts: seq<int>, writes: nat) {
    && |was| == |now| == |counts|
    && (forall d :: 0 <= d < |now| ==> counts[d] >= 0 && now[d] == Times(was[d], delta, counts[d]))
    && Sum(counts) == writes
  }

  lemma AddOnce(delta: int, was: seq<Pixel>, now: seq<Pixel>, counts: seq<int>, writes: nat, d: nat)
    requires Added(delta, was, now, counts, writes) && d < |now|
    ensures Added(delta, was, now[d := Plus(now[d], delta)], Bumped(counts, d), writes + 1)
  {
    SumOfBumped(counts, d);
    hide Plus, Sum;
  }

  lemma NothingAdded(delta: int, was: seq<Pixel>)
    ensures Added(delta, was, was, seq(|was|, _ => 0), 0)
  {
    SumOfEqual(seq(|was|, _ => 0), 0);
  }

  // Where the sizes divide: every pixel once.

  /** The current block and the place in it; every component is a number of pixels. */
  datatype Place = Place(top: nat, left: nat, j: nat, k: nat)

  /** Pixel (r, c) comes before the place in the order of the walk. */
  predicate Passed(p: Picture, at: Place, r: nat, c: nat) {
    || r < at.top
    || (r < at.top + BlockHeight(p) && c < at.left)
    || (at.top <= r < at.top + at.j && at.left <= c < at.left + BlockWidth(p))
    || (r == at.top + at.j && at.left <= c < at.left + at.k)
  }

  ghost predicate Sized(p: Picture, origin: nat, counts: seq<int>) {
    origin + p.xres * p.yres <= |counts|
  }

  ghost predicate PassedCounted(p: Picture, origin: nat, at: Place, counts: seq<int>)
    requires Sized(p, origin, counts)
  {
    forall r: nat, c: nat :: r < p.yres && c < p.xres ==>
      CountAt(counts, origin, p.xres, p.yres, r, c) == if Passed(p, at, r, c) then 1 else 0
  }

  ghost predicate RestZero(p: Picture, origin: nat, counts: seq<int>)
    requires Sized(p, origin, counts)
  {
    forall d :: 0 <= d < |counts| && !(origin <= d < origin + p.xres * p.yres) ==> counts[d] == 0
  }

  /** Exactly the pixels passed have been counted, once. */
  ghost predicate Progress(p: Picture, origin: nat, at: Place, counts: seq<int>) {
    Sized(p, origin, counts) && PassedCounted(p, origin, at, counts) && RestZero(p, origin, counts)
  }

  lemma SamePlace(p: Picture, origin: nat, at: Place, to: Place, counts: seq<int>)
    requires Progress(p, origin, at, counts)
    requires forall r: nat, c: nat :: r < p.yres && c < p.xres ==> (Passed(p, at, r, c) <==> Passed(p, to, r, c))
    ensures Progress(p, origin, to, counts)
  {
  }

  lemma StartsHere(p: Picture, origin: nat, n: nat)
    requires origin + p.xres * p.yres <= n
    ensures Progress(p, origin, Place(0, 0, 0, 0), seq(n, _ => 0))
  {
    var counts := seq(n, _ => 0);
    assert forall d :: 0 <= d < n ==> counts[d] == 0;
    forall r: nat, c: nat | r < p.yres && c < p.xres
      ensures CountAt(counts, origin, p.xres, p.yres, r, c) == 0
    {
      ZeroAt(counts, origin, p.xres, p.yres, r, c);
    }
    hide CountAt;
  }

  lemma ZeroAt(counts: seq<int>, origin: nat, xres: nat, yres: nat, r: nat, c: nat)
    requires origin + xres * yres <= |counts| && r < yres && c < xres
    requires forall d :: 0 <= d < |counts| ==> counts[d] == 0
    ensures CountAt(counts, origin, xres, yres, r, c) == 0
  {
    IndexInRange(xres, yres, r, c);
    hide Index;
  }

  /** The pixel the pointer stands on was not counted before. */
  lemma StepRight(p: Picture, origin: nat, at: Place, counts: seq<int>)
    requires Progress(p, origin, at, counts)
    requires at.top + at.j < p.yres && at.left + at.k < p.xres && at.j < BlockHeight(p) && at.k < BlockWidth(p)
    ensures Index(p.xres, at.top + at.j, at.left + at.k) < p.xres * p.yres
    ensures origin + p.xres * p.yres <= |counts|
    ensures Progress(p, origin, at.(k := at.k + 1),
                     Bumped(counts, origin + Index(p.xres, at.top + at.j, at.left + at.k)))
  {
    var r, c := at.top + at.j, at.left + at.k;
    IndexInRange(p.xres, p.yres, r, c);
    var d := origin + Index(p.xres, r, c);
    BumpCount(counts, Bumped(counts, d), origin, p.xres, p.yres, r, c);
    hide CountAt, Index;
    assert !Passed(p, at, r, c);
  }

  /** Where block l begins. */
  function BlockStart(p: Picture, l: nat): Place
    requires l <= X_AXIS * Y_AXIS
  {
    var h, w := BlockHeight(p), BlockWidth(p);
    var row, column := l / X_AXIS, l % X_AXIS;
    Place(if row == 0 then 0 else if row == 1 then h else if row == 2 then 2 * h else if row == 3 then 3 * h else 4 * h,
          if column == 0 then 0 else if column == 1 then w else if column == 2 then 2 * w
          else if column == 3 then 3 * w else 4 * w,
          0, 0)
  }

  lemma BlockInside(p: Picture, l: nat)
    requires p.Divides() && l < X_AXIS * Y_AXIS
    ensures BlockStart(p, l).top + BlockHeight(p) <= p.yres && BlockStart(p, l).left + BlockWidth(p) <= p.xres
    ensures BlockStart(p, l).j == BlockStart(p, l).k == 0
  {
  }

  /** The end of a row of a block is the beginning of the next. */
  lemma RowEnds(p: Picture, origin: nat, at: Place, counts: seq<int>)
    requires Progress(p, origin, at, counts) && at.k == BlockWidth(p)
    ensures Progress(p, origin, at.(j := at.j + 1, k := 0), counts)
  {
    hide Progress;
    SamePlace(p, origin, at, at.(j := at.j + 1, k := 0), counts);
  }

  /** The end of a block is the beginning of the next. */
  lemma BlockEnds(p: Picture, origin: nat, l: nat, counts: seq<int>)
    requires p.Divides() && l < X_AXIS * Y_AXIS
    requires Progress(p, origin, BlockStart(p, l).(j := BlockHeight(p)), counts)
    ensures Progress(p, origin, BlockStart(p, l + 1), counts)
  {
    hide Progress;
    SamePlace(p, origin, BlockStart(p, l).(j := BlockHeight(p)), BlockStart(p, l + 1), counts);
  }

  /** Every pixel of the picture has been counted exactly once, and nothing else has. */
  ghost predicate OnceEach(p: Picture, origin: nat, counts: seq<int>) {
    && origin + p.xres * p.yres <= |counts|
    && forall d :: 0 <= d < |counts| ==> counts[d] == if origin <= d < origin + p.xres * p.yres then 1 else 0
  }

  lemma WalkEnds(p: Picture, origin: nat, counts: seq<int>)
    requires p.Divides()
    requires Progress(p, origin, BlockStart(p, X_AXIS * Y_AXIS), counts)
    ensures OnceEach(p, origin, counts)
  {
    forall d | origin <= d < origin + p.xres * p.yres
      ensures counts[d] == 1
    {
      var r, c := EveryPositionHasRowAndColumn(p.xres, p.yres, d - origin);
      assert Passed(p, BlockStart(p, X_AXIS * Y_AXIS), r, c);
      assert CountAt(counts, origin, p.xres, p.yres, r, c) == counts[d];
    }
  }

  // The pointer, where the sizes divide.

  function Pointer(p: Picture, at: Place): nat {
    Index(p.xres, at.top + at.j, at.left + at.k)
  }

  lemma PointerAtBlockEnd(p: Picture, l: nat)
    requires p.Divides() && l < X_AXIS * Y_AXIS
    ensures Pointer(p, BlockStart(p, l)) + BlockHeight(p) * Stride(p) + BlockMove(p, l + 1)
            == Pointer(p, BlockStart(p, l + 1))
  {
    var at := BlockStart(p, l);
    var h := BlockHeight(p);
    assert p.xres * p.yres == 4 * (h * p.xres);
    assert (at.top + h) * p.xres == at.top * p.xres + h * p.xres;
    hide Passed;
  }

  lemma {:induction false} BlockBeginIs(p: Picture, l: nat)
    requires p.Divides() && l <= X_AXIS * Y_AXIS
    ensures BlockBegin(p, l) == Pointer(p, BlockStart(p, l))
  {
    if l > 0 {
      BlockBeginIs(p, l - 1);
      PointerAtBlockEnd(p, l - 1);
    }
    hide BlockStart, Stride, BlockMove, BlockHeight;
  }

  /** Where the sizes divide, the pointer stands on the pixel of the place. */
  lemma PositionIs(p: Picture, l: nat, j: nat, k: nat)
    requires p.Divides() && l < X_AXIS * Y_AXIS
    ensures Position(p, l, j, k) == Pointer(p, BlockStart(p, l).(j := j, k := k))
  {
    BlockBeginIs(p, l);
    var at := BlockStart(p, l);
    assert at.j == at.k == 0 && Stride(p) == p.xres;
    assert (at.top + j) * p.xres == at.top * p.xres + j * p.xres;
    hide BlockStart, BlockBegin, Stride;
  }

  /** ... so the walk stays in the picture. */
  lemma DividingStaysInside(p: Picture, origin: nat, n: nat)
    requires p.Divides() && origin + p.xres * p.yres <= n
    ensures Mapped(p, origin, n)
  {
    hide BlockStart, Position;
    forall l: nat, j: nat, k: nat | l < X_AXIS * Y_AXIS && j < BlockHeight(p) && k < BlockWidth(p)
      ensures 0 <= origin + Position(p, l, j, k) < n
    {
      PositionIs(p, l, j, k);
      BlockInside(p, l);
      IndexInRange(p.xres, p.yres, BlockStart(p, l).top + j, BlockStart(p, l).left + k);
    }
  }

  /** Where the width is no multiple of 5 the rows of a block move left by a pixel each. */
  lemma RowsDrift(p: Picture, l: nat, j: nat, k: nat)
    ensures Position(p, l, j, k) == Position(p, l, 0, 0) + j * (if p.xres % 5 == 0 then p.xres else p.xres - 1) + k
  {
    var w, e := p.xres / 5, p.xres % 5;
    assert p.xres == 5 * w + e;
    assert Stride(p) == if e == 0 then p.xres else p.xres - 1;
    hide BlockBegin, Stride;
  }

  /** The way from block to block, for any size: four quarters of the picture back, or on to the next line of blocks. */
  lemma NextBlockBegins(p: Picture, l: nat)
    ensures Position(p, l + 1, 0, 0) ==
            Position(p, l, p.yres / 4, 0) +
            if l % 5 == 4 then -(p.xres * 4 / 5) else p.xres / 5 - p.xres * p.yres / 4
  {
    assert (l + 1) % X_AXIS == 0 <==> l % 5 == 4;
    hide Stride;
  }

  /** Where they do not divide the walk can leave the picture: here the second block begins before the first pixel. */
  lemma CanLeaveThePicture()
    ensures Position(Picture(6, 400), 1, 0, 0) == -99
    ensures Position(Picture(9, 7), 1, 0, 0) == -6
  {
    assert BlockBegin(Picture(6, 400), 0) == 0 && BlockBegin(Picture(9, 7), 0) == 0;
  }

  // The program.

  /** What has been done when the pointer stands at pixel k of row j of block l. */
  ghost predicate Walked(p: Picture, origin: nat, i: nat, l: nat, j: nat, k: nat,
                         was: seq<Pixel>, now: seq<Pixel>, counts: seq<int>, writes: nat)
    requires l <= X_AXIS * Y_AXIS
  {
    && Added(Delta(i), was, now, counts, writes)
    && (p.Divides() ==> Progress(p, origin, BlockStart(p, l).(j := j, k := k), counts))
  }

  lemma WalkedStep(p: Picture, origin: nat, i: nat, l: nat, j: nat, k: nat,
                   was: seq<Pixel>, now: seq<Pixel>, counts: seq<int>, writes: nat)
    requires l < X_AXIS * Y_AXIS && j < BlockHeight(p) && k < BlockWidth(p) && Mapped(p, origin, |now|)
    requires Walked(p, origin, i, l, j, k, was, now, counts, writes)
    ensures 0 <= origin + Position(p, l, j, k) < |now| == |counts|
    ensures var d := origin + Position(p, l, j, k);
            Walked(p, origin, i, l, j, k + 1, was, now[d := Plus(now[d], Delta(i))], Bumped(counts, d), writes + 1)
  {
    var d := origin + Position(p, l, j, k);
    AddOnce(Delta(i), was, now, counts, writes, d);
    if p.Divides() {
      var at := BlockStart(p, l).(j := j, k := k);
      PositionIs(p, l, j, k);
      BlockInside(p, l);
      StepRight(p, origin, at, counts);
      assert at.(k := k + 1) == BlockStart(p, l).(j := j, k := k + 1);
    }
    hide Added, Progress, Position, BlockStart, Plus, Delta;
  }

  lemma WalkedRow(p: Picture, origin: nat, i: nat, l: nat, j: nat,
                  was: seq<Pixel>, now: seq<Pixel>, counts: seq<int>, writes: nat)
    requires l < X_AXIS * Y_AXIS && Walked(p, origin, i, l, j, BlockWidth(p), was, now, counts, writes)
    ensures Walked(p, origin, i, l, j + 1, 0, was, now, counts, writes)
    ensures Position(p, l, j, BlockWidth(p)) + RowSkip(p) == Position(p, l, j + 1, 0)
  {
    if p.Divides() {
      RowEnds(p, origin, BlockStart(p, l).(j := j, k := BlockWidth(p)), counts);
    }
    hide Added, Progress, BlockStart, BlockBegin;
    assert (j + 1) * Stride(p) == j * Stride(p) + Stride(p);
  }

  lemma WalkedBlock(p: Picture, origin: nat, i: nat, l: nat,
                    was: seq<Pixel>, now: seq<Pixel>, counts: seq<int>, writes: nat)
    requires l < X_AXIS * Y_AXIS && Walked(p, origin, i, l, BlockHeight(p), 0, was, now, counts, writes)
    ensures Walked(p, origin, i, l + 1, 0, 0, was, now, counts, writes)
    ensures Position(p, l, BlockHeight(p), 0) + BlockMove(p, l + 1) == Position(p, l + 1, 0, 0)
  {
    if p.Divides() {
      BlockEnds(p, origin, l, counts);
      assert BlockStart(p, l + 1) == BlockStart(p, l + 1).(j := 0, k := 0);
      assert BlockStart(p, l).(j := BlockHeight(p)) == BlockStart(p, l).(j := BlockHeight(p), k := 0);
    }
    hide Added, Progress, BlockStart, Stride, BlockMove;
  }

  method WalkRow(buffer: array<Pixel>, origin: nat, p: Picture, i: nat, ghost l: nat, ghost j: nat, puBuf: int,
                 ghost was: seq<Pixel>, ghost counts: seq<int>, ghost writes: nat)
    returns (newPuBuf: int, ghost tally: seq<int>)
    requires l < X_AXIS * Y_AXIS && j < BlockHeight(p) && Mapped(p, origin, buffer.Length)
    requires puBuf == Position(p, l, j, 0)
    requires Walked(p, origin, i, l, j, 0, was, buffer[..], counts, writes)
    modifies buffer
    ensures newPuBuf == Position(p, l, j, BlockWidth(p))
    ensures Walked(p, origin, i, l, j, BlockWidth(p), was, buffer[..], tally, writes + BlockWidth(p))
  {
    newPuBuf, tally := puBuf, counts;
    var k := 0;
    hide Mapped, Walked, Plus, Delta, BlockBegin, Stride, Bumped;
    while k < p.xres / X_AXIS
      invariant 0 <= k <= p.xres / X_AXIS
      invariant newPuBuf == Position(p, l, j, k)
      invariant Walked(p, origin, i, l, j, k, was, buffer[..], tally, writes + k)
    {
      WalkedStep(p, origin, i, l, j, k, was, buffer[..], tally, writes + k);
      tally := Bumped(tally, origin + newPuBuf);
      buffer[origin + newPuBuf] := Plus(buffer[origin + newPuBuf], Delta(i));
      newPuBuf := newPuBuf + 1;
      k := k + 1;
    }
  }

  method WalkBlock(buffer: array<Pixel>, origin: nat, p: Picture, i: nat, ghost l: nat, puBuf: int,
                   ghost was: seq<Pixel>, ghost counts: seq<int>, ghost writes: nat)
    returns (newPuBuf: int, ghost tally: seq<int>)
    requires l < X_AXIS * Y_AXIS && Mapped(p, origin, buffer.Length)
    requires puBuf == Position(p, l, 0, 0)
    requires Walked(p, origin, i, l, 0, 0, was, buffer[..], counts, writes)
    modifies buffer
    ensures newPuBuf == Position(p, l, BlockHeight(p), 0)
    ensures Walked(p, origin, i, l, BlockHeight(p), 0, was, buffer[..], tally, writes + BlockHeight(p) * BlockWidth(p))
  {
    newPuBuf, tally := puBuf, counts;
    var j := 0;
    ghost var done := 0;
    hide Mapped, Walked, Position;
    while j < p.yres / Y_AXIS
      invariant 0 <= j <= p.yres / Y_AXIS && done == j * BlockWidth(p)
      invariant newPuBuf == Position(p, l, j, 0)
      invariant Walked(p, origin, i, l, j, 0, was, buffer[..], tally, writes + done)
    {
      newPuBuf, tally := WalkRow(buffer, origin, p, i, l, j, newPuBuf, was, tally, writes + done);
      done := done + BlockWidth(p);
      WalkedRow(p, origin, i, l, j, was, buffer[..], tally, writes + done);
      newPuBuf := newPuBuf + p.xres * (X_AXIS - 1) / X_AXIS;
      j := j + 1;
    }
  }

  /** How many pixels the first l blocks count, repeated ones included. */
  function WritesBefore(p: Picture, l: nat): nat {
    if l == 0 then 0 else WritesBefore(p, l - 1) + BlockHeight(p) * BlockWidth(p)
  }

  lemma {:induction false} WritesBeforeIs(p: Picture, l: nat)
    ensures WritesBefore(p, l) == l * (BlockHeight(p) * BlockWidth(p))
  {
    if l > 0 {
      WritesBeforeIs(p, l - 1);
      var size := BlockHeight(p) * BlockWidth(p);
      assert l * size == (l - 1) * size + size;
    }
  }

  /** ... and a whole pass. */
  function PassWrites(p: Picture): nat { WritesBefore(p, X_AXIS * Y_AXIS) }

  /** One pass: what it adds, how often, and where. */
  ghost predicate PassDone(p: Picture, origin: nat, i: nat, was: seq<Pixel>, now: seq<Pixel>, counts: seq<int>) {
    Added(Delta(i), was, now, counts, PassWrites(p)) && (p.Divides() ==> OnceEach(p, origin, counts))
  }

  /** The pointer at the end of block l. */
  method LeaveBlock(p: Picture, l: nat, puBuf: int) returns (newPuBuf: int)
    ensures newPuBuf == puBuf + BlockMove(p, l + 1)
  {
    newPuBuf := puBuf;
    if (l + 1) % X_AXIS != 0 {
      newPuBuf := newPuBuf - p.xres * p.yres / Y_AXIS;
      newPuBuf := newPuBuf + p.xres / X_AXIS;
    } else {
      newPuBuf := newPuBuf - p.xres * (X_AXIS - 1) / X_AXIS;
    }
  }

  /** One pass over the picture that begins at origin. */
  method Pass(buffer: array<Pixel>, origin: nat, p: Picture, i: nat) returns (ghost counts: seq<int>)
    requires p.Valid() && Mapped(p, origin, buffer.Length) && origin + p.xres * p.yres <= buffer.Length
    modifies buffer
    ensures PassDone(p, origin, i, old(buffer[..]), buffer[..], counts)
  {
    ghost var was := buffer[..];
    counts := seq(buffer.Length, _ => 0);
    WalkStarts(p, origin, i, was);
    var puBuf := 0;
    var l := 0;
    assert WritesBefore(p, 0) == 0 && X_AXIS * Y_AXIS == 20;
    hide *;
    while l < X_AXIS * Y_AXIS
      invariant 0 <= l <= X_AXIS * Y_AXIS
      invariant puBuf == Position(p, l, 0, 0)
      invariant Walked(p, origin, i, l, 0, 0, was, buffer[..], counts, WritesBefore(p, l))
    {
      puBuf, counts := PassBlock(buffer, origin, p, i, l, puBuf, was, counts);
      l := l + 1;
    }
    WalkIsDone(p, origin, i, was, buffer[..], counts);
  }

  /** One block, and the way to the next. */
  method PassBlock(buffer: array<Pixel>, origin: nat, p: Picture, i: nat, l: nat, puBuf: int,
                   ghost was: seq<Pixel>, ghost counts: seq<int>)
    returns (newPuBuf: int, ghost tally: seq<int>)
    requires l < X_AXIS * Y_AXIS && Mapped(p, origin, buffer.Length) && puBuf == Position(p, l, 0, 0)
    requires Walked(p, origin, i, l, 0, 0, was, buffer[..], counts, WritesBefore(p, l))
    modifies buffer
    ensures newPuBuf == Position(p, l + 1, 0, 0)
    ensures Walked(p, origin, i, l + 1, 0, 0, was, buffer[..], tally, WritesBefore(p, l + 1))
  {
    assert WritesBefore(p, l + 1) == WritesBefore(p, l) + BlockHeight(p) * BlockWidth(p);
    hide *;
    newPuBuf, tally := WalkBlock(buffer, origin, p, i, l, puBuf, was, counts, WritesBefore(p, l));
    WalkedBlock(p, origin, i, l, was, buffer[..], tally, WritesBefore(p, l + 1));
    newPuBuf := LeaveBlock(p, l, newPuBuf);
  }

  lemma WalkStarts(p: Picture, origin: nat, i: nat, was: seq<Pixel>)
    requires origin + p.xres * p.yres <= |was|
    ensures Walked(p, origin, i, 0, 0, 0, was, was, seq(|was|, _ => 0), 0) && Position(p, 0, 0, 0) == 0
  {
    NothingAdded(Delta(i), was);
    StartsHere(p, origin, |was|);
    assert BlockStart(p, 0).(j := 0, k := 0) == Place(0, 0, 0, 0);
    hide Added, Progress, Delta;
  }

  lemma WalkIsDone(p: Picture, origin: nat, i: nat, was: seq<Pixel>, now: seq<Pixel>, counts: seq<int>)
    requires Walked(p, origin, i, X_AXIS * Y_AXIS, 0, 0, was, now, counts, WritesBefore(p, X_AXIS * Y_AXIS))
    ensures PassDone(p, origin, i, was, now, counts)
  {
    var at := BlockStart(p, X_AXIS * Y_AXIS);
    assert at == at.(j := 0, k := 0);
    if p.Divides() {
      WalkEnds(p, origin, counts);
    }
    hide Added, Progress, BlockStart, OnceEach, WritesBefore;
  }

  // When every pixel is reached exactly once.

  lemma WritesReachEvery(p: Picture)
    ensures PassWrites(p) >= p.xres * p.yres <==> p.Divides() || p.xres * p.yres == 0
  {
    var w, h := p.xres / 5, p.yres / 4;
    var e, f := p.xres % 5, p.yres % 4;
    WritesBeforeIs(p, X_AXIS * Y_AXIS);
    assert PassWrites(p) == 20 * (h * w);
    assert p.xres == 5 * w + e && p.yres == 4 * h + f;
    assert p.Divides() <==> e == 0 && f == 0;
    hide *;
    Products(p.xres, p.yres, w, e, h, f);
    ShortBy(w, e, p.yres, f);
    NoPixel(p.xres, p.yres, w, e, h, f);
  }

  lemma Products(xres: nat, yres: nat, w: nat, e: nat, h: nat, f: nat)
    requires xres == 5 * w + e && yres == 4 * h + f
    ensures xres * yres == 20 * (h * w) + (e * yres + 5 * w * f)
  {
    assert xres * yres == (5 * w) * yres + e * yres;
    assert (5 * w) * yres == 20 * (h * w) + 5 * w * f;
  }

  lemma NoPixel(xres: nat, yres: nat, w: nat, e: nat, h: nat, f: nat)
    requires xres == 5 * w + e && yres == 4 * h + f
    ensures xres * yres == 0 <==> (w == 0 && e == 0) || yres == 0
    ensures yres == 0 ==> f == 0
  {
  }

  lemma ShortBy(w: nat, e: nat, yres: nat, f: nat)
    requires f <= yres
    ensures e * yres + 5 * w * f == 0 <==> (e == 0 || yres == 0) && (w == 0 || f == 0)
  {
  }

  ghost predicate AllOnce(counts: seq<int>, origin: nat, n: nat) {
    origin + n <= |counts| && forall d :: origin <= d < origin + n ==> counts[d] == 1
  }

  lemma AllOnceNeedsWrites(counts: seq<int>, origin: nat, n: nat)
    requires AllOnce(counts, origin, n) && forall d :: 0 <= d < |counts| ==> counts[d] >= 0
    ensures Sum(counts) >= n
  {
    hide Sum;
    SumAtLeast(counts, origin, n);
  }

  lemma PassMeans(p: Picture, origin: nat, i: nat, was: seq<Pixel>, now: seq<Pixel>, counts: seq<int>)
    requires PassDone(p, origin, i, was, now, counts)
    ensures Sum(counts) == PassWrites(p) && forall d :: 0 <= d < |counts| ==> counts[d] >= 0
    ensures p.Divides() ==> AllOnce(counts, origin, p.xres * p.yres)
  {
    hide Sum, PassWrites, Times, Picture.Divides;
  }

  /** A pass changes every pixel of the picture exactly once exactly when the sizes divide, or there is no pixel. */
  lemma OnceExactly(p: Picture, origin: nat, i: nat, was: seq<Pixel>, now: seq<Pixel>, counts: seq<int>)
    requires PassDone(p, origin, i, was, now, counts) && origin + p.xres * p.yres <= |counts|
    ensures AllOnce(counts, origin, p.xres * p.yres) <==> p.Divides() || p.xres * p.yres == 0
  {
    var n := p.xres * p.yres;
    assert n == 0 ==> AllOnce(counts, origin, n);
    hide *;
    WritesReachEvery(p);
    PassMeans(p, origin, i, was, now, counts);
    if AllOnce(counts, origin, n) {
      AllOnceNeedsWrites(counts, origin, n);
    }
  }

  // Both passes.

  /** Every pixel of the picture has changed once, and nothing else. */
  ghost predicate AllChanged(p: Picture, origin: nat, delta: int, was: seq<Pixel>, now: seq<Pixel>) {
    && origin + p.xres * p.yres <= |was| == |now|
    && forall d :: 0 <= d < |was| ==>
         now[d] == if origin <= d < origin + p.xres * p.yres then (was[d] + delta) % 0x1_0000_0000 else was[d]
  }

  /** Where the sizes divide, a pass adds its constant to every pixel and to nothing else. */
  lemma PassChangesAll(p: Picture, origin: nat, i: nat, was: seq<Pixel>, now: seq<Pixel>, counts: seq<int>)
    requires p.Divides() && PassDone(p, origin, i, was, now, counts)
    ensures AllChanged(p, origin, Delta(i), was, now)
  {
    hide Delta, Plus, Sum, PassWrites, Times;
    forall d | 0 <= d < |was|
      ensures now[d] == if origin <= d < origin + p.xres * p.yres then Plus(was[d], Delta(i)) else was[d]
    {
      TimesOnce(was[d], Delta(i));
    }
    PlusWraps(Delta(i));
  }

  lemma PlusWraps(delta: int)
    ensures forall pixel: Pixel :: Plus(pixel, delta) == (pixel + delta) % 0x1_0000_0000
  {
  }

  lemma TimesOnce(pixel: Pixel, delta: int)
    ensures Times(pixel, delta, 0) == pixel && Times(pixel, delta, 1) == Plus(pixel, delta)
  {
  }

  method Demo(buffer: array<Pixel>, origin: nat, p: Picture)
    returns (ghost counts0: seq<int>, ghost between: seq<Pixel>, ghost counts1: seq<int>)
    requires p.Valid() && Mapped(p, origin, buffer.Length) && origin + p.xres * p.yres <= buffer.Length
    modifies buffer
    ensures PassDone(p, origin, 0, old(buffer[..]), between, counts0)
    ensures PassDone(p, origin, 1, between, buffer[..], counts1)
    ensures p.Divides() ==> AllChanged(p, origin, 0x8000_0000, old(buffer[..]), between)
    ensures p.Divides() ==> AllChanged(p, origin, 0x7000_0000, between, buffer[..])
    ensures p.Divides() ==> AllChanged(p, origin, 0xF000_0000, old(buffer[..]), buffer[..])
  {
    counts0, counts1, between := [], [], buffer[..];
    ghost var was := buffer[..];
    var i := 0;
    while true
      invariant i == 0 || i == 1
      invariant i == 0 ==> buffer[..] == was
      invariant i == 1 ==> between == buffer[..] && PassDone(p, origin, 0, was, between, counts0)
      decreases 1 - i
    {
      hide *;
      ghost var counts := Pass(buffer, origin, p, i);
      i := i + 1;
      if i > 1 {
        counts1 := counts;
        if p.Divides() {
          PassChangesAll(p, origin, 0, was, between, counts0);
          PassChangesAll(p, origin, 1, between, buffer[..], counts1);
          PassesAdd(p, origin, was, between, buffer[..]);
        }
        break;
      }
      counts0, between := counts, buffer[..];
    }
  }

  lemma PassesAdd(p: Picture, origin: nat, was: seq<Pixel>, between: seq<Pixel>, now: seq<Pixel>)
    requires AllChanged(p, origin, Delta(0), was, between) && AllChanged(p, origin, Delta(1), between, now)
    ensures AllChanged(p, origin, 0x8000_0000, was, between) && AllChanged(p, origin, 0x7000_0000, between, now)
    ensures AllChanged(p, origin, 0xF000_0000, was, now)
  {
    forall d | origin <= d < origin + p.xres * p.yres
      ensures now[d] == (was[d] as int + 0xF000_0000) % 0x1_0000_0000
    {
      assert now[d] == (between[d] as int + 0x7000_0000) % 0x1_0000_0000;
    }
  }
}
