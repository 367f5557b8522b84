/**
 Carrying the application segments of a source JPEG over to its resized copy: they are collected
 from the source buffer, and later written over the gap in front of the encoded image.
 */
module JpegSplice {
  import opened Machine
  import opened JpegHeader
  import opened JpegHeaderProofs

  /** Unsigned 32-bit subtraction. */
  function Minus32(a: int, b: int): int {
    (a - b) % TWO_TO_THE_32
  }

  predicate InBounds(apps: seq<Segment>, n: nat) {
    forall k :: 0 <= k < |apps| ==> apps[k].offset + apps[k].size <= n
  }

  /** The bytes of the segments, one after another. */
  function Collected(b: seq<Byte>, apps: seq<Segment>): seq<Byte>
    requires InBounds(apps, |b|)
  {
    if apps == [] then []
    else
      var last := apps[|apps| - 1];
      Collected(b, apps[..|apps| - 1]) + b[last.offset..last.offset + last.size]
  }

  function TotalSize(apps: seq<Segment>): nat {
    if apps == [] then 0 else TotalSize(apps[..|apps| - 1]) + apps[|apps| - 1].size
  }

  lemma {:induction false} CollectedSize(b: seq<Byte>, apps: seq<Segment>)
    requires InBounds(apps, |b|)
    ensures |Collected(b, apps)| == TotalSize(apps)
    decreases |apps|
  {
    if apps != [] {
      CollectedSize(b, apps[..|apps| - 1]);
    }
  }

  lemma {:induction false} TotalSizeGrows(apps: seq<Segment>, k: nat)
    requires k <= |apps|
    ensures TotalSize(apps[..k]) <= TotalSize(apps)
    decreases |apps|
  {
    if k == |apps| {
      assert apps[..k] == apps;
    } else {
      assert apps[..|apps| - 1][..k] == apps[..k];
      TotalSizeGrows(apps[..|apps| - 1], k);
    }
  }

  /** Rounds up to a multiple of four. */
  function Reserved(total: nat): (r: nat)
    ensures r % 4 == 0 && total <= r < total + 4
  {
    if total % 4 != 0 then total - total % 4 + 4 else total
  }

  /** The last of the first i + 1 segments, on top of the first i. */
  lemma CollectedTurn(b: seq<Byte>, apps: seq<Segment>, i: nat)
    requires InBounds(apps, |b|) && i < |apps|
    ensures TotalSize(apps[..i + 1]) == TotalSize(apps[..i]) + apps[i].size <= TotalSize(apps)
    ensures Collected(b, apps[..i + 1]) ==
            Collected(b, apps[..i]) + b[apps[i].offset..apps[i].offset + apps[i].size]
  {
    hide *;
    PrefixInBounds(b, apps, i + 1);
    var some := apps[..i + 1];
    assert some[..i] == apps[..i];
    TotalSizeGrows(apps, i + 1);
    LastCollected(b, some);
  }

  lemma PrefixInBounds(b: seq<Byte>, apps: seq<Segment>, i: nat)
    requires InBounds(apps, |b|) && i <= |apps|
    ensures InBounds(apps[..i], |b|)
  {
  }

  lemma LastCollected(b: seq<Byte>, apps: seq<Segment>)
    requires InBounds(apps, |b|) && apps != []
    ensures var n := |apps| - 1; var last := apps[n];
            && TotalSize(apps) == TotalSize(apps[..n]) + last.size
            && Collected(b, apps) == Collected(b, apps[..n]) + b[last.offset..last.offset + last.size]
  {
  }

  method SumSizes(parser: Parser, ghost apps: seq<Segment>) returns (total: nat)
    requires parser.Holds(apps)
    ensures total == TotalSize(apps)
  {
    total := 0;
    for i := 0 to parser.appNum
      invariant total == TotalSize(apps[..i])
    {
      assert apps[..i + 1][..i] == apps[..i];
      total := total + parser.appSize[i];
    }
    assert apps[..|apps|] == apps;
  }

  method Gather(parser: Parser, buffer: array<Byte>, appInfo: array<Byte>, ghost apps: seq<Segment>)
    requires parser.Holds(apps) && InBounds(apps, buffer.Length) && buffer != appInfo
    requires appInfo.Length == TotalSize(apps)
    modifies appInfo
    ensures appInfo[..] == Collected(buffer[..], apps)
  {
    hide TotalSize, Collected;
    EmptyCollected(buffer[..]);
    ghost var b := buffer[..];
    var offset := 0;
    for i := 0 to parser.appNum
      invariant parser.Holds(apps) && buffer[..] == b
      invariant offset == TotalSize(apps[..i]) <= appInfo.Length
      invariant appInfo[..offset] == Collected(b, apps[..i])
    {
      CollectedTurn(b, apps, i);
      var size := parser.appSize[i];
      CopyBytes(buffer, parser.appOffset[i], appInfo, offset, size);
      assert appInfo[..offset + size] == appInfo[..offset] + appInfo[offset..offset + size];
      offset := offset + size;
    }
    assert apps[..|apps|] == apps;
  }

  lemma EmptyCollected(b: seq<Byte>)
    ensures Collected(b, []) == [] && TotalSize([]) == 0
  {
  }

  /** Collects the recorded segments of the source image, and how much room to reserve for them. */
  method CollectApps(parser: Parser, buffer: array<Byte>, ghost apps: seq<Segment>)
    returns (appInfo: array<Byte>, total: nat, reserved: nat)
    requires parser.Holds(apps) && InBounds(apps, buffer.Length)
    ensures fresh(appInfo) && appInfo[..] == Collected(buffer[..], apps)
    ensures total == appInfo.Length && reserved == Reserved(total)
  {
    total := SumSizes(parser, apps);
    appInfo := new Byte[total];
    reserved := Reserved(total);
    Gather(parser, buffer, appInfo, apps);
  }

  /** memcpy between two buffers. */
  method CopyBytes(src: array<Byte>, from: nat, dst: array<Byte>, to: nat, n: nat)
    requires src != dst && from + n <= src.Length && to + n <= dst.Length
    modifies dst
    ensures dst[to..to + n] == src[from..from + n]
    ensures dst[..to] == old(dst[..to]) && dst[to + n..] == old(dst[to + n..])
  {
    for k := 0 to n
      invariant dst[to..to + k] == src[from..from + k]
      invariant dst[..to] == old(dst[..to]) && dst[to + n..] == old(dst[to + n..])
    {
      dst[to + k] := src[from + k];
    }
  }

  /** The resized file, were it written to its end: a new start marker, the segments, the rest of the encoded image. */
  function Spliced(appInfo: seq<Byte>, encoded: seq<Byte>): seq<Byte>
    requires |encoded| >= 2
  {
    [0xFF, 0xD8] + appInfo + encoded[2..]
  }

  /** The buffer after the segments and a new start of image have been put in front of srcSize + 2. */
  function Placed(b: seq<Byte>, info: seq<Byte>, srcSize: nat): (r: seq<Byte>)
    requires |info| <= srcSize && srcSize + 2 <= |b|
    ensures |r| == |b|
  {
    b[..srcSize - |info|] + [0xFF, 0xD8] + info + b[srcSize + 2..]
  }

  lemma PlacedByWrites(b: seq<Byte>, copied: seq<Byte>, info: seq<Byte>, srcSize: nat)
    requires |copied| == |b| && |info| <= srcSize && srcSize + 2 <= |b|
    requires var start := srcSize - |info| + 2;
             && copied[..start] == b[..start] && copied[start..srcSize + 2] == info
             && copied[srcSize + 2..] == b[srcSize + 2..]
    ensures var start := srcSize - |info| + 2;
            copied[start - 2 := 0xFF][start - 1 := 0xD8] == Placed(b, info, srcSize)
  {
  }

  method PutStartMarker(buffer: array<Byte>, at: nat)
    requires at + 2 <= buffer.Length
    modifies buffer
    ensures buffer[..] == old(buffer[..])[at := 0xFF][at + 1 := 0xD8]
  {
    buffer[at] := 0xFF;
    buffer[at + 1] := 0xD8;
  }

  lemma StartOfSegments(srcSize: nat, total: nat)
    requires total <= srcSize < TWO_TO_THE_32 - 2
    ensures Minus32(srcSize, Minus32(total, 2)) == srcSize - total + 2
  {
  }

  method PlaceSegments(buffer: array<Byte>, appInfo: array<Byte>, srcSize: nat)
    requires buffer != appInfo && appInfo.Length <= srcSize && srcSize + 2 <= buffer.Length < TWO_TO_THE_32
    modifies buffer
    ensures buffer[..] == Placed(old(buffer[..]), appInfo[..], srcSize)
  {
    var total := appInfo.Length;
    var start := Minus32(srcSize, Minus32(total, 2));
    StartOfSegments(srcSize, total);
    hide *;
    ghost var info, b := appInfo[..], buffer[..];
    CopyBytes(appInfo, 0, buffer, start, total);
    ghost var copied := buffer[..];
    assert appInfo[0..total] == info;
    PlacedByWrites(b, copied, info, srcSize);
    PutStartMarker(buffer, start - 2);
  }

  /**
   Writes the segments in front of the encoded image that starts at srcSize, and returns the bytes
   that go to the output file.  The write stays in the reserved gap and the two bytes of the image's
   own start marker; the file lacks the last two bytes of the encoded image.
   */
  method Splice(buffer: array<Byte>, appInfo: array<Byte>, srcSize: nat, encodedSize: nat) returns (file: seq<Byte>)
    requires buffer != appInfo && appInfo.Length <= srcSize && 2 <= encodedSize
    requires srcSize + encodedSize <= buffer.Length < TWO_TO_THE_32
    modifies buffer
    ensures var whole := Spliced(appInfo[..], old(buffer[srcSize..srcSize + encodedSize]));
            file == whole[..|whole| - 2]
    ensures buffer[..] == Placed(old(buffer[..]), appInfo[..], srcSize)
  {
    hide Placed, Spliced;
    ghost var b := buffer[..];
    PlaceSegments(buffer, appInfo, srcSize);
    var from := srcSize - appInfo.Length;
    file := buffer[from..from + (encodedSize + appInfo.Length - 2)];
    PlacedIsSpliced(b, appInfo[..], srcSize, encodedSize);
    assert buffer[srcSize..srcSize + encodedSize] == buffer[..][srcSize..srcSize + encodedSize];
  }

  /**
   With the reserved room between the decoded image and the encoded one, nothing is written but that room and the
   encoded image's own start marker.
   */
  lemma SpliceStaysInGap(b: seq<Byte>, info: seq<Byte>, imageSize: nat)
    requires imageSize + Reserved(|info|) + 2 <= |b|
    ensures var srcSize := imageSize + Reserved(|info|);
            var after := Placed(b, info, srcSize);
            after[..imageSize] == b[..imageSize] && after[srcSize + 2..] == b[srcSize + 2..]
  {
  }

  lemma PlacedIsSpliced(b: seq<Byte>, info: seq<Byte>, srcSize: nat, encodedSize: nat)
    requires |info| <= srcSize && 2 <= encodedSize && srcSize + encodedSize <= |b|
    ensures var whole := Spliced(info, b[srcSize..srcSize + encodedSize]);
            Placed(b, info, srcSize)[srcSize - |info|..srcSize + encodedSize - 2] == whole[..|whole| - 2]
  {
    var encoded := b[srcSize..srcSize + encodedSize];
    var written := Placed(b, info, srcSize)[srcSize - |info|..srcSize + encodedSize - 2];
    var expected := Spliced(info, encoded)[..encodedSize + |info| - 2];
    assert |written| == |expected| == encodedSize + |info| - 2;
    forall k | 0 <= k < |written|
      ensures written[k] == expected[k]
    {
      assert k >= |info| + 2 ==> expected[k] == encoded[k - |info|] == b[srcSize + (k - |info|)];
    }
  }

  // Segments of a header, collected and joined.

  lemma CollectedOne(b: seq<Byte>, s: Segment)
    requires s.offset + s.size <= |b|
    ensures InBounds([s], |b|) && Collected(b, [s]) == b[s.offset..s.offset + s.size]
  {
  }

  lemma PrependShape(s: Segment, apps: seq<Segment>, limit: nat)
    requires s.offset + s.size <= limit && InBounds(apps, limit)
    ensures InBounds([s] + apps, limit)
    ensures apps != [] ==>
              var n := |apps|; var all := [s] + apps;
              all[n] == apps[n - 1] && all[..n] == [s] + apps[..n - 1] && InBounds(apps[..n - 1], limit)
    ensures [s] + [] == [s]
  {
  }

  lemma {:induction false} CollectedPrepend(b: seq<Byte>, s: Segment, apps: seq<Segment>)
    requires s.offset + s.size <= |b| && InBounds(apps, |b|)
    ensures InBounds([s] + apps, |b|)
    ensures Collected(b, [s] + apps) == b[s.offset..s.offset + s.size] + Collected(b, apps)
    decreases |apps|
  {
    var x, n := b[s.offset..s.offset + s.size], |apps|;
    hide *;
    PrependShape(s, apps, |b|);
    if n == 0 {
      CollectedOne(b, s);
      EmptyCollected(b);
    } else {
      LastCollected(b, [s] + apps);
      LastCollected(b, apps);
      CollectedPrepend(b, s, apps[..n - 1]);
      var last := apps[n - 1];
      AssociativeBytes(x, Collected(b, apps[..n - 1]), b[last.offset..last.offset + last.size]);
    }
  }

  lemma AssociativeBytes(x: seq<Byte>, y: seq<Byte>, z: seq<Byte>)
    ensures x + (y + z) == (x + y) + z
  {
  }

  lemma CollectedFirst(b: seq<Byte>, at: nat, s: HeaderSegment, later: seq<Segment>, apps: seq<HeaderSegment>)
    requires WellFormed(s) && AllWellFormed(apps) && AllWellFormed([s] + apps)
    requires at + |s.data| + 4 <= |b| && b[at..at + |s.data| + 4] == Encode(s)
    requires InBounds(later, |b|) && Collected(b, later) == EncodeAll(apps)
    ensures InBounds([Segment(at, |s.data| + 4)] + later, |b|)
    ensures Collected(b, [Segment(at, |s.data| + 4)] + later) == EncodeAll([s] + apps)
  {
    hide *;
    CollectedPrepend(b, Segment(at, |s.data| + 4), later);
    EncodeFirst(s, apps);
  }

  lemma EncodeFirst(s: HeaderSegment, segs: seq<HeaderSegment>)
    requires AllWellFormed([s] + segs) && WellFormed(s) && AllWellFormed(segs)
    ensures EncodeAll([s] + segs) == Encode(s) + EncodeAll(segs)
  {
  }

  lemma {:induction false} EncodeAllJoins(x: seq<HeaderSegment>, y: seq<HeaderSegment>)
    requires AllWellFormed(x) && AllWellFormed(y) && AllWellFormed(x + y)
    ensures EncodeAll(x + y) == EncodeAll(x) + EncodeAll(y)
    decreases |x|
  {
    if x == [] {
      assert x + y == y;
    } else {
      var s, rest := x[0], x[1..];
      assert WellFormed(s) && x == [s] + rest && x + y == [s] + (rest + y);
      assert AllWellFormed(rest) && AllWellFormed(rest + y);
      hide EncodeAll, Encode, AllWellFormed;
      EncodeAllJoins(rest, y);
      EncodeFirst(s, rest);
      EncodeFirst(s, rest + y);
      AssociativeBytes(Encode(s), EncodeAll(rest), EncodeAll(y));
    }
  }

  lemma SplicedIsHeader(info: seq<Byte>, segments: seq<Byte>, frame: seq<Byte>, rest: seq<Byte>)
    requires |rest| >= 2
    ensures var whole := Spliced(info, [0xFF, 0xD8] + segments + frame + rest);
            whole[..|whole| - 2] == [0xFF, 0xD8] + (info + segments) + frame + rest[..|rest| - 2]
  {
  }
}
