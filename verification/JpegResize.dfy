/**
 Resizing with the application segments carried over, from the pieces of the source file to the output file.  What the
 engine decodes and encodes is given.  The program goes on whatever the scan of the source found.
 */
module JpegResize {
  import opened Machine
  import opened JpegHeader
  import opened JpegHeaderProofs
  import opened JpegRecovery
  import opened JpegRead
  import opened JpegSplice

  /** The buffer after x has been written at a place. */
  function WithPut(b: seq<Byte>, at: nat, x: seq<Byte>): (r: seq<Byte>)
    requires at + |x| <= |b|
    ensures |r| == |b|
  {
    b[..at] + x + b[at + |x|..]
  }

  /** The engine's output at a place in the buffer. */
  method Put(buffer: array<Byte>, at: nat, x: seq<Byte>)
    requires at + |x| <= buffer.Length
    modifies buffer
    ensures buffer[..] == WithPut(old(buffer[..]), at, x)
    ensures buffer[at..at + |x|] == x
  {
    for i := 0 to |x|
      invariant buffer[at..at + i] == x[..i]
      invariant buffer[..at] == old(buffer[..at]) && buffer[at + |x|..] == old(buffer[at + |x|..])
    {
      buffer[at + i] := x[i];
    }
    assert buffer[..] == buffer[..at] + buffer[at..at + |x|] + buffer[at + |x|..];
  }

  /** The file for the segments collected, short of its last two bytes as the program's length has it. */
  function Output(info: seq<Byte>, encoded: seq<Byte>): seq<Byte>
    requires |encoded| >= 2
  {
    var whole := Spliced(info, encoded);
    whole[..|whole| - 2]
  }

  // What is collected.

  /** The segments that the scan of a file leaves in the tables. */
  function Recording(source: seq<Byte>): seq<Segment> {
    Scan(source, 0, []).apps
  }

  /**
   The segments of a scan lie in the source, or the last of a rejected one reaches past it, by at most 65533 bytes.
   With that much room behind the source, collecting stays in the buffer.
   */
  lemma RecordingReaches(source: seq<Byte>)
    ensures InBounds(Recording(source), |source| + 65533)
    ensures Scan(source, 0, []).outcome.Size? ==> InBounds(Recording(source), |source|)
    ensures InBounds(Recording(source), |source|)
            || (Scan(source, 0, []).outcome.Rejected? && LastTruncated(Recording(source), 0, |source|))
  {
    SegmentsExactly(source, 0, []);
    SegmentsInOrder(source, 0, []);
    assert Recording(source) == Scan(source, 0, []).apps;
    hide *;
    if InOrder(Recording(source), 0, |source|) {
      InOrderInBounds(Recording(source), |source|);
    } else {
      TruncatedInBounds(Recording(source), |source|);
    }
  }

  lemma InOrderInBounds(apps: seq<Segment>, n: nat)
    requires InOrder(apps, 0, n)
    ensures InBounds(apps, n) && InBounds(apps, n + 65533)
  {
  }

  lemma TruncatedInBounds(apps: seq<Segment>, n: nat)
    requires LastTruncated(apps, 0, n)
    ensures InBounds(apps, n + 65533)
  {
    forall k | 0 <= k < |apps|
      ensures apps[k].offset + apps[k].size <= n + 65533
    {
      if k < |apps| - 1 {
        assert apps[..|apps| - 1][k] == apps[k];
      }
    }
  }

  /** A scan that is rejected at a segment cut short records it nevertheless. */
  lemma TruncatedIsRecorded()
    ensures Scan([0xFF, 0xE0, 0x10, 0x00], 0, []) == Scanned(Rejected, [Segment(0, 0x1002)])
  {
    var b: seq<Byte> := [0xFF, 0xE0, 0x10, 0x00];
    assert Step(b, 0) == Fail([Segment(0, 0x1002)]);
    assert [] + [Segment(0, 0x1002)] == [Segment(0, 0x1002)];
  }

  lemma {:induction false} CollectedPrefix(b: seq<Byte>, n: nat, apps: seq<Segment>)
    requires n <= |b| && InBounds(apps, n)
    ensures InBounds(apps, |b|) && Collected(b, apps) == Collected(b[..n], apps)
    decreases |apps|
  {
    if apps != [] {
      var last := apps[|apps| - 1];
      CollectedPrefix(b, n, apps[..|apps| - 1]);
      assert b[..n][last.offset..last.offset + last.size] == b[last.offset..last.offset + last.size];
    }
  }

  lemma TruncatedMeans(apps: seq<Segment>, n: nat, limit: nat)
    requires LastTruncated(apps, 0, n) && InBounds(apps, limit)
    ensures var k := |apps| - 1;
            k >= 0 && InBounds(apps[..k], n) && apps[k].offset < n < apps[k].offset + apps[k].size <= limit
  {
  }

  lemma CutTail(memory: seq<Byte>, source: seq<Byte>, start: nat, end: nat, before: seq<Byte>)
    requires start <= |source| <= end <= |memory| && memory[..|source|] == source
    ensures before + memory[start..end] == before + source[start..] + memory[|source|..end]
  {
    CutSlice(memory, |source|, start, end);
    AssociativeBytes(before, source[start..], memory[|source|..end]);
  }

  lemma CollectedTruncated(memory: seq<Byte>, source: seq<Byte>, apps: seq<Segment>, k: nat, start: nat, end: nat)
    requires |source| <= |memory| && memory[..|source|] == source
    requires k == |apps| - 1 && start == apps[k].offset && end == start + apps[k].size && start <= |source| <= end
    requires InBounds(apps, |memory|) && InBounds(apps[..k], |source|)
    ensures end <= |memory|
    ensures Collected(memory, apps) == Collected(source, apps[..k]) + source[start..] + memory[|source|..end]
  {
    LastInBounds(apps, |memory|);
    hide *;
    LastCollected(memory, apps);
    CollectedPrefix(memory, |source|, apps[..k]);
    CutTail(memory, source, start, end, Collected(source, apps[..k]));
  }

  lemma LastInBounds(apps: seq<Segment>, n: nat)
    requires apps != [] && InBounds(apps, n)
    ensures apps[|apps| - 1].offset + apps[|apps| - 1].size <= n
  {
  }

  /**
   From memory that starts with the source: exactly the segments of the source when they lie in it; else the last one is
   the rest of the source and then whatever lies behind it.
   */
  lemma CollectedFromMemory(memory: seq<Byte>, source: seq<Byte>)
    requires |source| <= |memory| && memory[..|source|] == source && InBounds(Recording(source), |memory|)
    ensures var apps := Recording(source); var k := |apps| - 1;
            if InBounds(apps, |source|) then Collected(memory, apps) == Collected(source, apps)
            else
              && k >= 0 && InBounds(apps[..k], |source|)
              && apps[k].offset < |source| < apps[k].offset + apps[k].size <= |memory|
              && Collected(memory, apps) == Collected(source, apps[..k]) + source[apps[k].offset..]
                                            + memory[|source|..apps[k].offset + apps[k].size]
  {
    hide *;
    var apps := Recording(source);
    RecordingReaches(source);
    if InBounds(apps, |source|) {
      CollectedPrefix(memory, |source|, apps);
    } else {
      TruncatedMeans(apps, |source|, |memory|);
      var k := |apps| - 1;
      CollectedTruncated(memory, source, apps, k, apps[k].offset, apps[k].offset + apps[k].size);
    }
  }

  lemma CutSlice(b: seq<Byte>, n: nat, start: nat, end: nat)
    requires start <= n <= end <= |b|
    ensures b[start..end] == b[..n][start..] + b[n..end]
  {
  }

  // From the file to the file.

  /** The buffer when the segments are collected: the source, and the decoded image behind it. */
  function AtCollection(b: seq<Byte>, source: seq<Byte>, image: seq<Byte>): (r: seq<Byte>)
    requires Reserved(|source|) + |image| <= |b|
    ensures |r| == |b|
  {
    WithPut(WithPut(b, 0, source), Reserved(|source|), image)
  }

  lemma SourceStays(b: seq<Byte>, source: seq<Byte>, image: seq<Byte>)
    requires Reserved(|source|) + |image| <= |b|
    ensures AtCollection(b, source, image)[..|source|] == source
  {
  }

  /** The image decoded behind the source leaves what is collected from the source as it was in the file. */
  lemma CollectedIsOfSource(b: seq<Byte>, source: seq<Byte>, image: seq<Byte>)
    requires Reserved(|source|) + |image| <= |b| && InBounds(Recording(source), |source|)
    ensures InBounds(Recording(source), |b|)
    ensures Collected(AtCollection(b, source, image), Recording(source)) == Collected(source, Recording(source))
  {
    SourceStays(b, source, image);
    AtCollectionIs(b, source, image);
    hide *;
    CollectedPrefix(AtCollection(b, source, image), |source|, Recording(source));
  }

  /** The decoded image moves to the front, the encoded one goes behind the reserved room, and the segments between. */
  method EncodeAndSplice(buffer: array<Byte>, appInfo: array<Byte>, reserved: nat, image: seq<Byte>, encoded: seq<Byte>)
    returns (file: seq<Byte>)
    requires buffer != appInfo && reserved == Reserved(appInfo.Length) && |encoded| >= 2
    requires |image| + reserved + |encoded| <= buffer.Length < TWO_TO_THE_32
    modifies buffer
    ensures file == Output(appInfo[..], encoded)
  {
    ReservedIsEnough(appInfo.Length);
    hide Reserved, Spliced, WithPut;
    Put(buffer, 0, image);
    var srcSize := |image| + reserved;
    Put(buffer, srcSize, encoded);
    file := Splice(buffer, appInfo, srcSize, |encoded|);
  }

  lemma ReservedIsEnough(total: nat)
    ensures total <= Reserved(total)
  {
  }

  /** The memory that a resize needs. */
  ghost predicate HasRoom(n: nat, source: seq<Byte>, image: seq<Byte>, encoded: seq<Byte>) {
    && Reserved(|source|) + |image| <= n < TWO_TO_THE_32 && |encoded| >= 2
    && InBounds(Recording(source), n)
    && |image| + Reserved(TotalSize(Recording(source))) + |encoded| <= n
  }

  /**
   Reads the source, collects what its last scan recorded, found or not, and writes the resized file; without the option
   the file is the encoded image.  A source with more than ten segments overruns the program's tables.
   */
  method Resize(parser: Parser, buffer: array<Byte>, pieces: seq<seq<Byte>>, srcBufsize: nat,
                image: seq<Byte>, encoded: seq<Byte>, appOption: bool)
    returns (tooLarge: bool, file: seq<Byte>)
    requires parser.Valid() && buffer as object !in {parser.appOffset, parser.appSize}
    requires pieces != [] && forall k :: 0 <= k < |pieces| ==> |pieces[k]| <= READ_SIZE
    requires srcBufsize + READ_SIZE < buffer.Length
    requires |Joined(pieces)| <= srcBufsize ==> HasRoom(buffer.Length, Joined(pieces), image, encoded)
    modifies parser, parser.appOffset, parser.appSize, buffer
    ensures tooLarge <==> |Joined(pieces)| > srcBufsize
    ensures tooLarge ==> file == []
    ensures !tooLarge && !appOption ==> file == encoded
    ensures !tooLarge && appOption && !Scan(Joined(pieces), 0, []).outcome.TableFull? ==>
              var source := Joined(pieces);
              file == Output(Collected(AtCollection(old(buffer[..]), source, image), Recording(source)), encoded)
  {
    file := [];
    ghost var was, source := buffer[..], Joined(pieces);
    assert HasRoom(buffer.Length, source, image, encoded) ==> Reserved(|source|) + |image| <= buffer.Length;
    hide *;
    var found, height, width, count;
    tooLarge, found, height, width, count := ReadBitstream(parser, buffer, pieces, srcBufsize);
    if tooLarge {
      return;
    }
    RoomMeans(buffer.Length, source, image, encoded);
    ReadIs(was, buffer[..], source);
    Put(buffer, Reserved(count), image);
    AtCollectionIs(was, source, image);
    if appOption {
      var appInfo, total, reserved := CollectApps(parser, buffer, Recording(source));
      CollectedSize(buffer[..], Recording(source));
      file := EncodeAndSplice(buffer, appInfo, reserved, image, encoded);
    } else {
      Put(buffer, 0, image);
      Put(buffer, |image|, encoded);
      file := buffer[|image|..|image| + |encoded|];
    }
  }

  lemma RoomMeans(n: nat, source: seq<Byte>, image: seq<Byte>, encoded: seq<Byte>)
    requires HasRoom(n, source, image, encoded)
    ensures Reserved(|source|) + |image| <= n < TWO_TO_THE_32 && |encoded| >= 2 && InBounds(Recording(source), n)
    ensures |image| + Reserved(TotalSize(Recording(source))) + |encoded| <= n && |image| + |encoded| <= n
    ensures Recording(source) == Scan(source, 0, []).apps
  {
    hide Reserved, TotalSize, InBounds, Scan;
  }

  lemma ReadIs(was: seq<Byte>, now: seq<Byte>, source: seq<Byte>)
    requires |was| == |now| && |source| <= |was| && now[..|source|] == source && now[|source|..] == was[|source|..]
    ensures now == WithPut(was, 0, source)
  {
    assert now == now[..|source|] + now[|source|..];
  }

  lemma AtCollectionIs(was: seq<Byte>, source: seq<Byte>, image: seq<Byte>)
    requires Reserved(|source|) + |image| <= |was|
    ensures |source| <= |was|
    ensures AtCollection(was, source, image) == WithPut(WithPut(was, 0, source), Reserved(|source|), image)
  {
  }

  // The header of the resized file.

  /** The application segments that are carried over: all but those swallowed after a derailing table. */
  ghost function Carried(segs: seq<HeaderSegment>): (apps: seq<HeaderSegment>)
    ensures forall k :: 0 <= k < |apps| ==> apps[k] in segs && apps[k].App?
    decreases |segs|
  {
    if segs == [] then []
    else if Derails(segs[0]) && |segs| > 1 then Carried(segs[2..])
    else (if segs[0].App? then [segs[0]] else []) + Carried(segs[1..])
  }

  lemma CarriedWellFormed(segs: seq<HeaderSegment>)
    requires AllWellFormed(segs)
    ensures AllWellFormed(Carried(segs))
  {
    hide WellFormed;
    var apps := Carried(segs);
    forall k | 0 <= k < |apps|
      ensures WellFormed(apps[k])
    {
      var j :| 0 <= j < |segs| && segs[j] == apps[k];
    }
  }

  lemma NothingCarried(b: seq<Byte>, at: nat)
    ensures Recorded([], at) == [] && Carried([]) == [] && Collected(b, []) == [] && EncodeAll([]) == []
    ensures InBounds([], |b|)
  {
  }

  lemma CarriedTurn(segs: seq<HeaderSegment>, at: nat)
    requires segs != [] && !Derails(segs[0])
    ensures var s := segs[0]; var rest := segs[1..]; var later := Recorded(rest, at + |s.data| + 4);
            && Recorded(segs, at) == (if s.App? then [Segment(at, |s.data| + 4)] + later else later)
            && Carried(segs) == (if s.App? then [s] + Carried(rest) else Carried(rest))
  {
  }

  lemma CarriedSwallow(segs: seq<HeaderSegment>)
    requires |segs| > 1 && Derails(segs[0])
    ensures Carried(segs) == Carried(segs[2..])
  {
  }

  /** What is collected from the recorded segments is the carried ones as they stood in the source. */
  lemma {:induction false} CollectedIsCarried(b: seq<Byte>, at: nat, segs: seq<HeaderSegment>)
    requires AllWellFormed(segs) && Recovers(segs) && AllWellFormed(Carried(segs))
    requires at + |EncodeAll(segs)| <= |b| && b[at..at + |EncodeAll(segs)|] == EncodeAll(segs)
    ensures InBounds(Recorded(segs, at), |b|)
    ensures Collected(b, Recorded(segs, at)) == EncodeAll(Carried(segs))
    decreases |segs|
  {
    hide *;
    if segs == [] {
      NothingCarried(b, at);
    } else {
      var s, rest := segs[0], segs[1..];
      var j := at + |s.data| + 4;
      SplitSegments(b, at, segs);
      if Derails(s) {
        RecordedSwallow(segs, at);
        CarriedSwallow(segs);
        SplitSegments(b, j, rest);
        CollectedIsCarried(b, j + |segs[1].data| + 4, segs[2..]);
      } else {
        RecoversTurn(segs);
        CarriedTurn(segs, at);
        CarriedWellFormed(rest);
        CollectedIsCarried(b, j, rest);
        if s.App? {
          CollectedFirst(b, at, s, Recorded(rest, j), Carried(rest));
        }
      }
    }
  }

  lemma {:induction false} AppsRecover(apps: seq<HeaderSegment>, segs: seq<HeaderSegment>)
    requires AllWellFormed(apps) && AllWellFormed(segs) && Recovers(segs)
    requires forall k :: 0 <= k < |apps| ==> apps[k].App?
    ensures AllWellFormed(apps + segs) && Recovers(apps + segs)
    decreases |apps|
  {
    hide WellFormed, Quiet;
    if apps == [] {
      assert apps + segs == segs;
    } else {
      assert (apps + segs)[1..] == apps[1..] + segs;
      AppsRecover(apps[1..], segs);
    }
  }

  lemma OutputIsHeader(info: seq<Byte>, segments: seq<Byte>, frame: seq<Byte>, rest: seq<Byte>)
    requires |rest| >= 2
    ensures Output(info, [0xFF, 0xD8] + segments + frame + rest)
            == [0xFF, 0xD8] + (info + segments) + frame + rest[..|rest| - 2]
  {
    SplicedIsHeader(info, segments, frame, rest);
    hide Spliced;
  }

  /**
   From a source header in which the scanner recovers whenever it derails, and an encoded image that begins with such a
   header: the output is the header with the carried segments in front of the encoder's, and scanning it finds the new
   size, unless there are more than ten segments.
   */
  lemma ResizedHeader(segs: seq<HeaderSegment>, length: nat, precision: Byte, height: nat, width: nat, more: seq<Byte>,
                      ours: seq<HeaderSegment>, newLength: nat, newPrecision: Byte, newHeight: nat, newWidth: nat,
                      rest: seq<Byte>)
    requires AllWellFormed(segs) && Recovers(segs) && |Recorded(segs, 2)| <= TABLE_SIZE
    requires length < 0x10000 && height < 0x10000 && width < 0x10000
    requires AllWellFormed(ours) && Recovers(ours)
    requires newLength < 0x10000 && newHeight < 0x10000 && newWidth < 0x10000 && |rest| >= 2
    ensures var source := Header(segs, length, precision, height, width, more);
            var encoded := Header(ours, newLength, newPrecision, newHeight, newWidth, rest);
            var all := Carried(segs) + ours;
            && Scan(source, 0, []).outcome == Size(height, width)
            && InBounds(Recording(source), |source|) && AllWellFormed(all) && |encoded| >= 2
            && var file := Output(Collected(source, Recording(source)), encoded);
               && file == Header(all, newLength, newPrecision, newHeight, newWidth, rest[..|rest| - 2])
               && (|Recorded(all, 2)| <= TABLE_SIZE ==> Scan(file, 0, []).outcome == Size(newHeight, newWidth))
  {
    var source := Header(segs, length, precision, height, width, more);
    var encoded := Header(ours, newLength, newPrecision, newHeight, newWidth, rest);
    var frame := Frame(newLength, newPrecision, newHeight, newWidth);
    CarriedWellFormed(segs);
    AppsRecover(Carried(segs), ours);
    assert Recording(source) == Scan(source, 0, []).apps;
    assert encoded == [0xFF, 0xD8] + EncodeAll(ours) + frame + rest;
    assert Header(Carried(segs) + ours, newLength, newPrecision, newHeight, newWidth, rest[..|rest| - 2])
        == [0xFF, 0xD8] + EncodeAll(Carried(segs) + ours) + frame + rest[..|rest| - 2];
    hide *;
    ScanRecoveringHeader(segs, length, precision, height, width, more);
    HeaderParts(segs, length, precision, height, width, more);
    HeaderParts(ours, newLength, newPrecision, newHeight, newWidth, rest);
    CollectedIsCarried(source, 2, segs);
    EncodeAllJoins(Carried(segs), ours);
    OutputIsHeader(EncodeAll(Carried(segs)), EncodeAll(ours), frame, rest);
    if |Recorded(Carried(segs) + ours, 2)| <= TABLE_SIZE {
      ScanRecoveringHeader(Carried(segs) + ours, newLength, newPrecision, newHeight, newWidth, rest[..|rest| - 2]);
    }
  }
}
