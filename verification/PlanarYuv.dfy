/**
 The conversion loops: pixels taken in pairs along each row, four bytes written per pair, into three planes that lie
 one behind the other.  The loops take any width; with an odd one the last pair of a row reaches one place too far.
 */
module PlanarYuv {
  import opened Machine
  import opened ColorConvert
  import opened Tally

  // The planes of a picture of n pixels: n bytes of luma, n / 2 of each chroma.

  /** The pixel whose chroma is kept at position j of its plane. */
  function SourcePixel(width: nat, j: nat): nat {
    if width % 2 == 1 && (2 * j + 1) / width % 2 == 1 then 2 * j + 1 else 2 * j
  }

  ghost predicate Sizes(src: seq<bv16>, width: nat, n: nat, now: seq<Byte>) {
    n <= |src| && (width % 2 == 1 && n > 0 ==> n < |src|) && 2 * n <= |now|
  }

  /**
   The byte at position d in the end.  With an odd width the last pair puts the luma of the pixel behind the
   picture at the start of the second plane, and with an odd number of pixels its own chroma at the start of the third.
   */
  function PlaneByte(src: seq<bv16>, width: nat, n: nat, d: nat): Byte
    requires n <= |src| && (width % 2 == 1 && n > 0 ==> n < |src|) && d < 2 * n
  {
    if d < n then YOf(src[d])
    else if d == n && width % 2 == 1 && n > 2 then YOf(src[n])
    else if d < n + n / 2 then CbOf(src[SourcePixel(width, d - n)])
    else if d == n + n / 2 && n % 2 == 1 && n > 1 then CbOf(src[n - 1])
    else if d < n + 2 * (n / 2) then CrOf(src[SourcePixel(width, d - n - n / 2)])
    else CrOf(src[n - 1])
  }

  /** Luma and chroma are in place for the first q pixels. */
  ghost predicate Plain(src: seq<bv16>, width: nat, n: nat, q: nat, now: seq<Byte>)
    requires Sizes(src, width, n, now) && q <= n
  {
    && (forall d :: 0 <= d < q ==> now[d] == YOf(src[d]))
    && (forall j :: 0 <= j < q / 2 ==> now[n + j] == CbOf(src[SourcePixel(width, j)]))
    && (forall j :: 0 <= j < q / 2 ==> now[n + n / 2 + j] == CrOf(src[SourcePixel(width, j)]))
  }

  ghost predicate Complete(src: seq<bv16>, width: nat, n: nat, now: seq<Byte>)
    requires Sizes(src, width, n, now)
  {
    forall d :: 0 <= d < 2 * n ==> now[d] == PlaneByte(src, width, n, d)
  }

  ghost predicate RestSame(n: nat, was: seq<Byte>, now: seq<Byte>) {
    |was| == |now| && forall d :: 2 * n <= d < |now| ==> now[d] == was[d]
  }

  ghost predicate Progress(src: seq<bv16>, width: nat, n: nat, q: nat, was: seq<Byte>, now: seq<Byte>) {
    && Sizes(src, width, n, now) && q <= n
    && (if q == n then Complete(src, width, n, now) else Plain(src, width, n, q, now))
    && RestSame(n, was, now)
  }

  function WithPair(now: seq<Byte>, n: nat, p: nat, c: nat, y0: Byte, y1: Byte, u0: Byte, v0: Byte): (r: seq<Byte>)
    requires p + 1 < 2 * n && n + n / 2 + c < 2 * n <= |now|
    ensures |r| == |now|
  {
    now[p := y0][p + 1 := y1][n + c := u0][n + n / 2 + c := v0]
  }

  /** The four bytes that the pair at pixel p writes. */
  function AfterPair(src: seq<bv16>, now: seq<Byte>, n: nat, p: nat): (r: seq<Byte>)
    requires p < n && p + 1 < |src| && 2 * n <= |now|
    ensures |r| == |now|
  {
    WithPair(now, n, p, p / 2, YOf(src[p]), YOf(src[p + 1]), CbOf(src[p]), CrOf(src[p]))
  }

  // One pair.

  lemma PairStaysPlain(src: seq<bv16>, width: nat, n: nat, p: nat, q: nat, now: seq<Byte>)
    requires Sizes(src, width, n, now) && p + 1 < n && (q == p + 1 || q == p + 2)
    requires Plain(src, width, n, p, now)
    requires q / 2 > p / 2 ==> SourcePixel(width, p / 2) == p
    ensures Plain(src, width, n, q, AfterPair(src, now, n, p))
  {
    hide YOf, CbOf, CrOf, SourcePixel;
    assert q / 2 <= p / 2 + 1 <= n / 2;
  }

  lemma PlainIsComplete(src: seq<bv16>, width: nat, n: nat, now: seq<Byte>)
    requires Sizes(src, width, n, now) && width % 2 == 0 && n % 2 == 0 && Plain(src, width, n, n, now)
    ensures Complete(src, width, n, now)
  {
    hide YOf, CbOf, CrOf, SourcePixel;
  }

  lemma LastPairCompletes(src: seq<bv16>, width: nat, n: nat, now: seq<Byte>)
    requires Sizes(src, width, n, now) && width % 2 == 1 && n > 0
    requires Plain(src, width, n, n - 1, now)
    requires n % 2 == 0 ==> SourcePixel(width, n / 2 - 1) == n - 1
    ensures Complete(src, width, n, AfterPair(src, now, n, n - 1))
  {
    hide YOf, CbOf, CrOf, SourcePixel;
    assert (n - 1) / 2 == if n % 2 == 0 then n / 2 - 1 else n / 2;
  }

  lemma RestStaysSame(src: seq<bv16>, n: nat, p: nat, was: seq<Byte>, now: seq<Byte>)
    requires p < n && p + 1 < |src| && 2 * n <= |now| && RestSame(n, was, now)
    ensures RestSame(n, was, AfterPair(src, now, n, p))
  {
    hide YOf, CbOf, CrOf;
  }

  /** Row y of a picture of n pixels starts at pixel base. */
  ghost predicate IsRow(width: nat, height: nat, n: nat, y: nat, base: nat) {
    n == width * height && y <= height && base == y * width
  }

  /** Where the pair at column x of a row takes its chroma from, if it is to stay. */
  lemma PairSource(width: nat, height: nat, n: nat, y: nat, base: nat, x: nat)
    requires IsRow(width, height, n, y, base) && x < width && x % 2 == 0
    ensures base / 2 + x / 2 == (base + x) / 2
    ensures width % 2 == 0 || x + 1 < width || (base + x) % 2 == 1 ==> SourcePixel(width, (base + x) / 2) == base + x
  {
    RowParity(width, y);
    var p := base + x;
    if width % 2 == 1 {
      if base % 2 == 1 {
        RowOf(width, y, x);
      } else if x + 1 < width {
        RowOf(width, y, x + 1);
      }
    }
  }

  lemma RowParity(width: nat, y: nat)
    ensures width % 2 == 0 ==> y * width % 2 == 0
    ensures width % 2 == 1 ==> y * width % 2 == y % 2
  {
    var half := width / 2;
    assert y * width == 2 * (half * y) + (width % 2) * y;
  }

  lemma RowOf(width: nat, y: nat, x: nat)
    requires x < width
    ensures (y * width + x) / width == y
  {
    var v := y * width + x;
    var k := v / width;
    assert v == k * width + v % width;
    if k < y {
      LaterRow(width, k, y);
    } else if y < k {
      LaterRow(width, y, k);
    }
  }

  lemma EvenRows(width: nat, height: nat, n: nat, y: nat, base: nat)
    requires IsRow(width, height, n, y, base) && width % 2 == 0
    ensures base % 2 == 0 && n % 2 == 0
  {
    RowParity(width, y);
    RowParity(width, height);
  }

  lemma PairInside(src: seq<bv16>, width: nat, n: nat, p: nat, q: nat, was: seq<Byte>, now: seq<Byte>)
    requires Progress(src, width, n, p, was, now)
    requires p + 1 < n && (q == p + 1 || q == p + 2) && (q == n ==> width % 2 == 0 && n % 2 == 0)
    requires q / 2 > p / 2 ==> SourcePixel(width, p / 2) == p
    ensures p + 1 < |src| && 2 * n <= |now|
    ensures Progress(src, width, n, q, was, AfterPair(src, now, n, p))
  {
    hide YOf, CbOf, CrOf, SourcePixel, AfterPair, Plain, Complete, RestSame;
    RestStaysSame(src, n, p, was, now);
    PairStaysPlain(src, width, n, p, q, now);
    if q == n {
      PlainIsComplete(src, width, n, AfterPair(src, now, n, p));
    }
  }

  lemma PairAtEnd(src: seq<bv16>, width: nat, n: nat, was: seq<Byte>, now: seq<Byte>)
    requires n > 0 && width % 2 == 1 && Progress(src, width, n, n - 1, was, now)
    requires n % 2 == 0 ==> SourcePixel(width, n / 2 - 1) == n - 1
    ensures n < |src| && 2 * n <= |now|
    ensures Progress(src, width, n, n, was, AfterPair(src, now, n, n - 1))
  {
    hide YOf, CbOf, CrOf, SourcePixel, AfterPair, Plain, Complete, RestSame;
    RestStaysSame(src, n, n - 1, was, now);
    LastPairCompletes(src, width, n, now);
  }

  /** The columns of a row that are behind after column x has been reached. */
  function Reached(width: nat, x: nat): nat { if x < width then x else width }

  /** Where the pair at column x stands, and where the next one will. */
  lemma PairSteps(width: nat, n: nat, base: nat, x: nat)
    requires x < width && x % 2 == 0 && base + width <= n
    requires width % 2 == 0 ==> base % 2 == 0 && n % 2 == 0
    ensures var p, q := base + x, base + Reached(width, x + 2);
            && p == base + Reached(width, x) && p < n && q <= n
            && n + n / 2 + p / 2 < 2 * n && (p + 1 < n || width % 2 == 1)
            && (width % 2 == 0 ==> n % 2 == 0 && p % 2 == 0 && q == p + 2)
            && (p + 1 < n ==> (q == p + 1 || q == p + 2) && (q == n ==> width % 2 == 0))
            && (p + 1 < n && q / 2 > p / 2 ==> width % 2 == 0 || x + 1 < width || p % 2 == 1)
            && (p + 1 >= n ==> p == n - 1 && q == n && (n % 2 == 0 ==> p % 2 == 1 && p / 2 == n / 2 - 1))
  {
  }

  /** One pair further: to the next pair of the row, or to the next row. */
  lemma PairAdvances(src: seq<bv16>, width: nat, height: nat, n: nat, y: nat, base: nat, x: nat, was: seq<Byte>,
                     now: seq<Byte>)
    requires IsRow(width, height, n, y, base) && x < width && x % 2 == 0 && base + width <= n
    requires Progress(src, width, n, base + x, was, now)
    ensures base + x < n && base + x + 1 < |src| && 2 * n <= |now|
    ensures Progress(src, width, n, base + Reached(width, x + 2), was, AfterPair(src, now, n, base + x))
  {
    hide *;
    PairSource(width, height, n, y, base, x);
    if width % 2 == 0 {
      EvenRows(width, height, n, y, base);
    }
    PairSteps(width, n, base, x);
    if base + x + 1 < n {
      PairInside(src, width, n, base + x, base + Reached(width, x + 2), was, now);
    } else {
      PairAtEnd(src, width, n, was, now);
    }
  }

  // How often each byte is written.

  /** One more write at each of four positions. */
  function Counted(counts: seq<int>, p: nat, p1: nat, u: nat, v: nat): (r: seq<int>)
    requires p < |counts| && p1 < |counts| && u < |counts| && v < |counts|
    ensures |r| == |counts|
  {
    Bumped(Bumped(Bumped(Bumped(counts, p), p1), u), v)
  }

  /** With an even width, byte d belongs to one of the first q pixels. */
  predicate Done(n: nat, q: nat, d: nat) {
    if d < n then d < q
    else if d < n + n / 2 then d - n < q / 2
    else d - n - n / 2 < q / 2
  }

  /** Every byte of the first q pixels has been written once, and no other. */
  ghost predicate OnceSoFar(n: nat, q: nat, counts: seq<int>) {
    |counts| == 2 * n && forall d :: 0 <= d < 2 * n ==> counts[d] == if Done(n, q, d) then 1 else 0
  }

  ghost predicate Tallied(width: nat, n: nat, q: nat, writes: nat, counts: seq<int>) {
    && |counts| == 2 * n && Sum(counts) == writes
    && (width % 2 == 0 ==> OnceSoFar(n, q, counts))
  }

  lemma TallyStarts(width: nat, n: nat)
    ensures Tallied(width, n, 0, 0, seq(2 * n, _ => 0))
  {
    SumOfEqual(seq(2 * n, _ => 0), 0);
  }

  lemma CountedEven(n: nat, p: nat, counts: seq<int>)
    requires n % 2 == 0 && p % 2 == 0 && p < n && OnceSoFar(n, p, counts)
    ensures OnceSoFar(n, p + 2, Counted(counts, p, p + 1, n + p / 2, n + n / 2 + p / 2))
  {
  }

  lemma {:induction false} SumOfCounted(counts: seq<int>, p: nat, p1: nat, u: nat, v: nat)
    requires p < |counts| && p1 < |counts| && u < |counts| && v < |counts|
    ensures Sum(Counted(counts, p, p1, u, v)) == Sum(counts) + 4
  {
    assert Counted(counts, p, p1, u, v) == Bumped(Bumped(Bumped(Bumped(counts, p), p1), u), v);
    hide *;
    SumOfBumped(counts, p);
    SumOfBumped(Bumped(counts, p), p1);
    SumOfBumped(Bumped(Bumped(counts, p), p1), u);
    SumOfBumped(Bumped(Bumped(Bumped(counts, p), p1), u), v);
  }

  lemma TallyAdvances(width: nat, n: nat, p: nat, q: nat, writes: nat, counts: seq<int>)
    requires p < n && Tallied(width, n, p, writes, counts)
    requires width % 2 == 0 ==> n % 2 == 0 && p % 2 == 0 && q == p + 2
    ensures n + n / 2 + p / 2 < 2 * n == |counts| && p + 1 < 2 * n
    ensures Tallied(width, n, q, writes + 4, Counted(counts, p, p + 1, n + p / 2, n + n / 2 + p / 2))
  {
    hide Counted, Done, Sum;
    SumOfCounted(counts, p, p + 1, n + p / 2, n + n / 2 + p / 2);
    if width % 2 == 0 {
      CountedEven(n, p, counts);
    }
  }

  // The whole conversion.

  /** What has been written when column x of row y has been reached. */
  ghost predicate Reaches(src: seq<bv16>, width: nat, n: nat, y: nat, base: nat, x: nat,
                          was: seq<Byte>, now: seq<Byte>, counts: seq<int>)
  {
    && Progress(src, width, n, base + Reached(width, x), was, now)
    && Tallied(width, n, base + Reached(width, x), 2 * (base + x) + if width % 2 == 1 then 2 * y else 0, counts)
  }

  /** Every byte of the planes is as stated; nothing behind them changed; and how often bytes were written. */
  ghost predicate Converted(src: seq<bv16>, width: nat, height: nat, was: seq<Byte>, now: seq<Byte>, counts: seq<int>) {
    var n := width * height;
    && Sizes(src, width, n, now) && Complete(src, width, n, now) && RestSame(n, was, now)
    && |counts| == 2 * n
    && Sum(counts) == 2 * n + (if width % 2 == 1 then 2 * height else 0)
    && (width % 2 == 0 ==> WrittenOnce(counts))
  }

  ghost predicate WrittenOnce(counts: seq<int>) {
    forall d :: 0 <= d < |counts| ==> counts[d] == 1
  }

  /** Each byte of the planes is written exactly once exactly when the width is even, or there are no rows. */
  lemma OnceExactly(src: seq<bv16>, width: nat, height: nat, was: seq<Byte>, now: seq<Byte>, counts: seq<int>)
    requires Converted(src, width, height, was, now, counts)
    ensures WrittenOnce(counts) <==> width % 2 == 0 || height == 0
  {
    if WrittenOnce(counts) {
      SumOfEqual(counts, 1);
    }
    hide Sizes, Complete, RestSame;
  }

  /** With an even width every byte holds its own component, the chroma that of the first pixel of the pair. */
  lemma EvenWidthPlanes(src: seq<bv16>, width: nat, height: nat, was: seq<Byte>, now: seq<Byte>, counts: seq<int>)
    requires Converted(src, width, height, was, now, counts) && width % 2 == 0
    ensures var n := width * height;
            && n % 2 == 0
            && (forall d :: 0 <= d < n ==> now[d] == YOf(src[d]))
            && (forall j :: 0 <= j < n / 2 ==> now[n + j] == CbOf(src[2 * j]) && now[n + n / 2 + j] == CrOf(src[2 * j]))
  {
    RowParity(width, height);
    hide YOf, CbOf, CrOf, Sum;
  }

  /**
   With an odd width luma is still right, and so is chroma but for the start of its planes: the second plane starts
   with the luma of the pixel behind the picture and, when the number of pixels is odd, the third with the last Cb.
   */
  lemma OddWidthPlanes(src: seq<bv16>, width: nat, height: nat, was: seq<Byte>, now: seq<Byte>, counts: seq<int>)
    requires Converted(src, width, height, was, now, counts) && width % 2 == 1
    ensures var n := width * height;
            && (forall d :: 0 <= d < n ==> now[d] == YOf(src[d]))
            && (forall j :: 0 < j < n / 2 ==>
                  && now[n + j] == CbOf(src[SourcePixel(width, j)])
                  && now[n + n / 2 + j] == CrOf(src[SourcePixel(width, j)]))
            && (n > 2 ==> now[n] == YOf(src[n]))
            && (n > 2 ==> now[n + n / 2] == if n % 2 == 1 then CbOf(src[n - 1]) else CrOf(src[SourcePixel(width, 0)]))
            && (n % 2 == 1 ==> now[2 * n - 1] == CrOf(src[n - 1]))
  {
    hide YOf, CbOf, CrOf, Sum, SourcePixel;
  }

  // The program.

  /** The 16-bit column counter after one more pair. */
  function NextColumn(x: nat): nat
    requires x < 0x1_0000
  {
    if x + 2 < 0x1_0000 then x + 2 else x + 2 - 0x1_0000
  }

  /** The counter after k pairs; it stays even. */
  function ColumnAfter(k: nat): (x: nat)
    ensures x < 0x1_0000
  {
    if k == 0 then 0 else NextColumn(ColumnAfter(k - 1))
  }

  predicate IsColumn(width: nat, x: nat) { x % 2 == 0 && x <= width + 1 }

  lemma NextColumnIs(width: nat, x: nat)
    requires width < 0xFFFF && IsColumn(width, x) && x < width
    ensures NextColumn(x) == x + 2 && x % 2 == 0 && x + 2 <= width + 1 && IsColumn(width, x + 2)
  {
  }

  lemma {:induction false} ColumnIs(k: nat) returns (half: nat)
    ensures ColumnAfter(k) == 2 * half
    ensures k <= 0x7FFF ==> half == k
  {
    half := 0;
    if k > 0 {
      var h := ColumnIs(k - 1);
      half := if h < 0x7FFF then h + 1 else 0;
    }
  }

  /** The counter gets to the end of a row exactly when the width is less than 65535. */
  lemma RowEndsExactly(width: nat)
    requires width < 0x1_0000
    ensures (exists k :: ColumnAfter(k) >= width) <==> width < 0xFFFF
  {
    hide ColumnAfter;
    if width < 0xFFFF {
      var k := (width + 1) / 2;
      var half := ColumnIs(k);
      assert ColumnAfter(k) >= width;
    } else {
      forall k
        ensures ColumnAfter(k) < width
      {
        var half := ColumnIs(k);
      }
    }
  }

  class Tables {
    const rToY: array<int>
    const gToY: array<int>
    const bToY: array<int>
    const rToCb: array<int>
    const gToCb: array<int>
    const bToCb: array<int>
    const rToCr: array<int>
    const gToCr: array<int>
    const bToCr: array<int>

    constructor ()
      ensures Separate()
      ensures fresh(All())
    {
      rToY := new int[256];
      gToY := new int[256];
      bToY := new int[256];
      rToCb := new int[256];
      gToCb := new int[256];
      bToCb := new int[256];
      rToCr := new int[256];
      gToCr := new int[256];
      bToCr := new int[256];
    }

    ghost function All(): set<object> {
      {rToY, gToY, bToY, rToCb, gToCb, bToCb, rToCr, gToCr, bToCr}
    }

    ghost predicate Separate() {
      && rToY.Length == gToY.Length == bToY.Length == 256
      && rToCb.Length == gToCb.Length == bToCb.Length == 256
      && rToCr.Length == gToCr.Length == bToCr.Length == 256
      && rToY !in {gToY, bToY, rToCb, gToCb, bToCb, rToCr, gToCr, bToCr}
      && gToY !in {bToY, rToCb, gToCb, bToCb, rToCr, gToCr, bToCr}
      && bToY !in {rToCb, gToCb, bToCb, rToCr, gToCr, bToCr}
      && rToCb !in {gToCb, bToCb, rToCr, gToCr, bToCr}
      && gToCb !in {bToCb, rToCr, gToCr, bToCr}
      && bToCb !in {rToCr, gToCr, bToCr}
      && rToCr !in {gToCr, bToCr}
      && gToCr != bToCr
    }

    ghost predicate EntriesAt(i: int)
      requires Separate() && 0 <= i < 256
      reads rToY, gToY, bToY, rToCb, gToCb, bToCb, rToCr, gToCr, bToCr
    {
      && rToY[i] == R_TO_Y * i && gToY[i] == G_TO_Y * i && bToY[i] == B_TO_Y * i + HALF
      && rToCb[i] == -(R_TO_CB * i) && gToCb[i] == -(G_TO_CB * i) && bToCb[i] == B_TO_CB * i + CBCR_OFFSET + HALF - 1
      && rToCr[i] == B_TO_CB * i + CBCR_OFFSET + HALF - 1 && gToCr[i] == -(G_TO_CR * i) && bToCr[i] == -(B_TO_CR * i)
    }

    /** Looking a colour up in the tables and adding yields the three sums. */
    ghost predicate Ready()
      requires Separate()
      reads rToY, gToY, bToY, rToCb, gToCb, bToCb, rToCr, gToCr, bToCr
    {
      forall i :: 0 <= i < 256 ==> EntriesAt(i)
    }

    method InitColorTable()
      requires Separate()
      modifies rToY, gToY, bToY, rToCb, gToCb, bToCb, rToCr, gToCr, bToCr
      ensures Ready()
    {
      var i := 0;
      while i < 256
        invariant 0 <= i <= 256
        invariant forall j :: 0 <= j < i ==> EntriesAt(j)
      {
        label Before:
        rToY[i] := R_TO_Y * i;
        gToY[i] := G_TO_Y * i;
        bToY[i] := B_TO_Y * i + HALF;
        rToCb[i] := R_TO_CB * -i;
        gToCb[i] := G_TO_CB * -i;
        bToCb[i] := B_TO_CB * i + CBCR_OFFSET + HALF - 1;
        rToCr[i] := bToCb[i];
        gToCr[i] := G_TO_CR * -i;
        bToCr[i] := B_TO_CR * -i;
        forall j | 0 <= j <= i
          ensures EntriesAt(j)
        {
          assert j < i ==> old@Before(EntriesAt(j));
        }
        i := i + 1;
      }
    }

    /** Splits a pixel into components of eight bits, shifting it down as it goes. */
    method Unpack(pixel: bv16) returns (r: bv8, g: bv8, b: bv8)
      ensures r == Red(pixel) && g == Green(pixel) && b == Blue(pixel)
    {
      var buf := pixel;
      b := (buf & 0x001F) as bv8;
      b := (b << 3) | (b >> 2);
      buf := buf >> 5;
      g := (buf & 0x003F) as bv8;
      g := (g << 2) | (g >> 4);
      buf := buf >> 6;
      assert buf == pixel >> 11;
      r := (buf & 0x001F) as bv8;
      r := (r << 3) | (r >> 2);
    }

    method Luma(r: bv8, g: bv8, b: bv8) returns (y: Byte)
      requires Separate() && Ready()
      ensures y == Kept(SumY(Rgb(r as int, g as int, b as int)))
    {
      assert EntriesAt(r as int) && EntriesAt(g as int) && EntriesAt(b as int);
      y := (rToY[r as int] + gToY[g as int] + bToY[b as int]) / SCALE % 256;
    }

    method Chroma(r: bv8, g: bv8, b: bv8) returns (u: Byte, v: Byte)
      requires Separate() && Ready()
      ensures u == Kept(SumCb(Rgb(r as int, g as int, b as int)))
      ensures v == Kept(SumCr(Rgb(r as int, g as int, b as int)))
    {
      assert EntriesAt(r as int) && EntriesAt(g as int) && EntriesAt(b as int);
      u := (rToCb[r as int] + gToCb[g as int] + bToCb[b as int]) / SCALE % 256;
      v := (rToCr[r as int] + gToCr[g as int] + bToCr[b as int]) / SCALE % 256;
    }

    /** Two neighbouring pixels: two bytes of luma, one of each chroma, taken from the first pixel. */
    method ConvertPair(pixel0: bv16, pixel1: bv16) returns (y0: Byte, y1: Byte, u0: Byte, v0: Byte)
      requires Separate() && Ready()
      ensures y0 == YOf(pixel0) && y1 == YOf(pixel1) && u0 == CbOf(pixel0) && v0 == CrOf(pixel0)
    {
      hide Kept, SumY, SumCb, SumCr, Ready, EntriesAt, Red, Green, Blue, Separate;
      var r, g, b := Unpack(pixel0);
      y0 := Luma(r, g, b);
      u0, v0 := Chroma(r, g, b);
      r, g, b := Unpack(pixel1);
      y1 := Luma(r, g, b);
    }

    /**
     Stores the bytes of a pair: luma at position p, chroma at position c of each of its planes.  The tally counts
     each of the four writes.
     */
    method Store(dest: array<Byte>, ghost counts: seq<int>, n: nat, p: nat, c: nat, y0: Byte, y1: Byte, u0: Byte,
                 v0: Byte)
      returns (ghost tally: seq<int>)
      requires |counts| == 2 * n <= dest.Length && p + 1 < 2 * n && n + n / 2 + c < 2 * n
      modifies dest
      ensures dest[..] == WithPair(old(dest[..]), n, p, c, y0, y1, u0, v0)
      ensures tally == Counted(counts, p, p + 1, n + c, n + n / 2 + c)
    {
      dest[p] := y0;
      tally := Bumped(counts, p);
      dest[p + 1] := y1;
      tally := Bumped(tally, p + 1);
      dest[n + c] := u0;
      tally := Bumped(tally, n + c);
      dest[n + n / 2 + c] := v0;
      tally := Bumped(tally, n + n / 2 + c);
    }

    /** The pair at pixel p: reads two pixels, stores four bytes. */
    method ConvertAt(src: array<bv16>, dest: array<Byte>, n: nat, p: nat, c: nat, ghost counts: seq<int>)
      returns (ghost tally: seq<int>)
      requires Separate() && Ready() && dest as object !in All() + {src}
      requires p < n && p + 1 < src.Length && c == p / 2
      requires |counts| == 2 * n <= dest.Length && p + 1 < 2 * n && n + n / 2 + c < 2 * n
      modifies dest
      ensures Ready() && src[..] == old(src[..])
      ensures dest[..] == AfterPair(src[..], old(dest[..]), n, p)
      ensures tally == Counted(counts, p, p + 1, n + c, n + n / 2 + c)
    {
      ghost var pixels := src[..];
      AfterPairIs(pixels, dest[..], n, p);
      hide *;
      var y0, y1, u0, v0 := ConvertPair(src[p], src[p + 1]);
      assert pixels[p] == src[p] && pixels[p + 1] == src[p + 1];
      tally := Store(dest, counts, n, p, c, y0, y1, u0, v0);
      assert src[..] == pixels;
    }

    /** The pair at column x of row y. */
    method ConvertColumn(src: array<bv16>, dest: array<Byte>, ghost width: nat, ghost height: nat, n: nat, ghost y: nat,
                         base: nat, x: nat, ghost before: seq<Byte>, ghost counts: seq<int>)
      returns (ghost tally: seq<int>)
      requires Separate() && Ready() && dest as object !in All() + {src}
      requires IsRow(width, height, n, y, base) && base + width <= n && x < width && x % 2 == 0
      requires Reaches(src[..], width, n, y, base, x, before, dest[..], counts)
      modifies dest
      ensures Ready() && src[..] == old(src[..])
      ensures Reaches(src[..], width, n, y, base, x + 2, before, dest[..], tally)
    {
      hide *;
      ReachesNext(src[..], width, height, n, y, base, x, before, dest[..], counts);
      PairSource(width, height, n, y, base, x);
      tally := ConvertAt(src, dest, n, base + x, base / 2 + x / 2, counts);
    }

    /** One row, a pair at a time. */
    method ConvertRow(src: array<bv16>, dest: array<Byte>, width: nat, ghost height: nat, n: nat, ghost y: nat,
                      base: nat, ghost before: seq<Byte>, ghost counts: seq<int>)
      returns (ghost tally: seq<int>)
      requires Separate() && Ready() && dest as object !in All() + {src}
      requires IsRow(width, height, n, y, base) && base + width <= n && width < 0xFFFF
      requires Reaches(src[..], width, n, y, base, 0, before, dest[..], counts)
      modifies dest
      ensures Ready() && src[..] == old(src[..])
      ensures Reaches(src[..], width, n, y + 1, base + width, 0, before, dest[..], tally)
    {
      assert IsColumn(width, 0);
      hide *;
      tally := counts;
      var x := 0;
      while x < width
        invariant IsColumn(width, x) && x <= width + 1
        invariant src[..] == old(src[..]) && Ready()
        invariant Reaches(src[..], width, n, y, base, x, before, dest[..], tally)
        decreases width + 1 - x
      {
        NextColumnIs(width, x);
        tally := ConvertColumn(src, dest, width, height, n, y, base, x, before, tally);
        x := NextColumn(x);
      }
      RowIsReached(src[..], width, n, y, base, x, before, dest[..], tally);
    }

    /** Converts a picture; the counts say how often each byte of the planes was written. */
    method Convert(src: array<bv16>, dest: array<Byte>, width: nat, height: nat) returns (ghost counts: seq<int>)
      requires Separate() && Ready()
      requires width < 0xFFFF && height < 0x1_0000 && width * height < 0x8000_0000
      requires Sizes(src[..], width, width * height, dest[..])
      requires dest as object !in All() + {src}
      modifies dest
      ensures Converted(src[..], width, height, old(dest[..]), dest[..], counts)
    {
      ghost var before := dest[..];
      var n := width * height;
      counts := seq(2 * n, _ => 0);
      ReachesStart(src[..], width, height, before);
      hide *;
      var y := 0;
      ghost var base: nat := 0;
      while y < height
        invariant 0 <= y <= height && IsRow(width, height, n, y, base)
        invariant Reaches(src[..], width, n, y, base, 0, before, dest[..], counts)
        invariant src[..] == old(src[..]) && Ready()
      {
        NextRow(width, height, n, y, base);
        counts := ConvertRow(src, dest, width, height, n, y, y * width, before, counts);
        y, base := y + 1, base + width;
      }
      ReachesEnd(src[..], width, height, n, base, before, dest[..], counts);
    }
  }

  lemma AfterPairIs(src: seq<bv16>, now: seq<Byte>, n: nat, p: nat)
    requires p < n && p + 1 < |src| && 2 * n <= |now|
    ensures n + n / 2 + p / 2 < 2 * n
    ensures AfterPair(src, now, n, p)
            == WithPair(now, n, p, p / 2, YOf(src[p]), YOf(src[p + 1]), CbOf(src[p]), CrOf(src[p]))
  {
  }

  lemma ReachesStart(src: seq<bv16>, width: nat, height: nat, was: seq<Byte>)
    requires Sizes(src, width, width * height, was)
    ensures IsRow(width, height, width * height, 0, 0)
    ensures Reaches(src, width, width * height, 0, 0, 0, was, was, seq(2 * (width * height), _ => 0))
  {
    TallyStarts(width, width * height);
    hide Tallied, SourcePixel, YOf, CbOf, CrOf;
  }

  lemma ReachesIs(src: seq<bv16>, width: nat, n: nat, y: nat, base: nat, x: nat,
                  was: seq<Byte>, now: seq<Byte>, counts: seq<int>)
    requires Progress(src, width, n, base + Reached(width, x), was, now)
    requires Tallied(width, n, base + Reached(width, x), 2 * (base + x) + if width % 2 == 1 then 2 * y else 0, counts)
    ensures Reaches(src, width, n, y, base, x, was, now, counts)
  {
  }

  lemma IsReaches(src: seq<bv16>, width: nat, n: nat, y: nat, base: nat, x: nat,
                  was: seq<Byte>, now: seq<Byte>, counts: seq<int>)
    requires Reaches(src, width, n, y, base, x, was, now, counts)
    ensures Progress(src, width, n, base + Reached(width, x), was, now)
    ensures Tallied(width, n, base + Reached(width, x), 2 * (base + x) + if width % 2 == 1 then 2 * y else 0, counts)
  {
  }

  lemma ReachesNext(src: seq<bv16>, width: nat, height: nat, n: nat, y: nat, base: nat, x: nat,
                    was: seq<Byte>, now: seq<Byte>, counts: seq<int>)
    requires IsRow(width, height, n, y, base) && x < width && x % 2 == 0 && base + width <= n
    requires Reaches(src, width, n, y, base, x, was, now, counts)
    ensures base + x + 1 < |src| && 2 * n <= |now| && |counts| == 2 * n && n + n / 2 + (base + x) / 2 < 2 * n
    ensures Reaches(src, width, n, y, base, x + 2, was, AfterPair(src, now, n, base + x),
                    Counted(counts, base + x, base + x + 1, n + (base + x) / 2, n + n / 2 + (base + x) / 2))
  {
    hide *;
    if width % 2 == 0 {
      EvenRows(width, height, n, y, base);
    }
    PairSteps(width, n, base, x);
    var q, writes := base + Reached(width, x + 2), 2 * (base + x) + if width % 2 == 1 then 2 * y else 0;
    IsReaches(src, width, n, y, base, x, was, now, counts);
    PairAdvances(src, width, height, n, y, base, x, was, now);
    TallyAdvances(width, n, base + x, q, writes, counts);
    ReachesIs(src, width, n, y, base, x + 2, was, AfterPair(src, now, n, base + x),
              Counted(counts, base + x, base + x + 1, n + (base + x) / 2, n + n / 2 + (base + x) / 2));
  }

  lemma RowIsReached(src: seq<bv16>, width: nat, n: nat, y: nat, base: nat, x: nat,
                     was: seq<Byte>, now: seq<Byte>, counts: seq<int>)
    requires Reaches(src, width, n, y, base, x, was, now, counts)
    requires IsColumn(width, x) && x >= width && base + width <= n
    ensures Reaches(src, width, n, y + 1, base + width, 0, was, now, counts)
  {
    hide Progress, Tallied;
  }

  lemma ReachesEnd(src: seq<bv16>, width: nat, height: nat, n: nat, base: nat, was: seq<Byte>, now: seq<Byte>,
                   counts: seq<int>)
    requires IsRow(width, height, n, height, base)
    requires Reaches(src, width, n, height, base, 0, was, now, counts)
    ensures Converted(src, width, height, was, now, counts)
  {
    assert base == n;
    if width % 2 == 0 {
      EvenRows(width, height, n, height, base);
    }
    hide Sum, Complete, Plain, RestSame, Sizes;
  }

  lemma NextRow(width: nat, height: nat, n: nat, y: nat, base: nat)
    requires IsRow(width, height, n, y, base) && y < height
    ensures y * width == base && base + width <= n
    ensures IsRow(width, height, n, y + 1, base + width)
  {
    assert (y + 1) * width == y * width + width;
    assert height * width == n;
    LaterRow(width, y, height);
  }
}
