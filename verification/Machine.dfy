/**
 Bytes and words as integers, and what several models share.
 */
module Machine {
  const TWO_TO_THE_32 := 0x1_0000_0000

  type Byte = x: int | 0 <= x < 256

  type U32 = x: int | 0 <= x < TWO_TO_THE_32

  datatype Option<T> = None | Some(value: T)

  lemma SplitSlice(b: seq<Byte>, i: nat, x: seq<Byte>, y: seq<Byte>)
    requires i + |x| + |y| <= |b| && b[i..i + |x| + |y|] == x + y
    ensures b[i..i + |x|] == x && b[i + |x|..i + |x| + |y|] == y
  {
    var z := b[i..i + |x| + |y|];
    assert b[i..i + |x|] == z[..|x|];
    assert b[i + |x|..i + |x| + |y|] == z[|x|..];
  }

  /** A later row begins at least one row further. */
  lemma {:induction false} LaterRow(width: nat, r: nat, later: nat)
    requires r < later
    ensures r * width + width <= later * width
    decreases later
  {
    assert later * width == (later - 1) * width + width;
    if r < later - 1 {
      LaterRow(width, r, later - 1);
    }
  }
}
