/**
 Which markers end a scan, and how: the frame codes and table lengths that are refused, and headers cut short.
 */
module JpegMarkers {
  import opened Machine
  import opened JpegHeader
  import opened JpegHeaderProofs
  import opened JpegRecovery

  /** Start of image, segments, a marker, and whatever follows. */
  function UpTo(segs: seq<HeaderSegment>, code: Byte, tail: seq<Byte>): seq<Byte>
    requires AllWellFormed(segs)
  {
    [0xFF, 0xD8] + EncodeAll(segs) + [0xFF, code] + tail
  }

  lemma UpToParts(segs: seq<HeaderSegment>, code: Byte, tail: seq<Byte>)
    requires AllWellFormed(segs)
    ensures var b, n := UpTo(segs, code, tail), |EncodeAll(segs)| + 2;
            && |b| == n + 2 + |tail| && b[0] == 0xFF && b[1] == 0xD8
            && b[2..n] == EncodeAll(segs) && b[n] == 0xFF && b[n + 1] == code && b[n + 2..] == tail
  {
  }

  /** The scan comes to stand at the marker, with the segments before it recorded. */
  lemma ScanReaches(segs: seq<HeaderSegment>, code: Byte, tail: seq<Byte>)
    requires AllWellFormed(segs) && Recovers(segs) && |Recorded(segs, 2)| <= 10
    ensures var b, n := UpTo(segs, code, tail), |EncodeAll(segs)| + 2;
            && n + 2 <= |b| && b[n] == 0xFF && b[n + 1] == code && b[n + 2..] == tail
            && Scan(b, 0, []) == Scan(b, n, Recorded(segs, 2))
  {
    var b := UpTo(segs, code, tail);
    UpToParts(segs, code, tail);
    assert Step(b, 0) == Next(2, []);
    assert TABLE_SIZE == 10 && [] + Recorded(segs, 2) == Recorded(segs, 2);
    hide *;
    ScanTurn(b, 0, []);
    ScanRecovering(b, 2, segs, []);
  }

  lemma ScanFails(b: seq<Byte>, i: nat, apps: seq<Segment>)
    requires i < |b| && Step(b, i) == Fail([]) && |apps| <= 10
    ensures Scan(b, i, apps) == Scanned(Rejected, apps)
  {
    assert apps + [] == apps;
  }

  // One turn of the loop in numbers.

  /** Scan headers, Huffman tables, application and comment segments: by their length, of which any will do. */
  lemma StepByLength(b: seq<Byte>, i: nat)
    requires i + 4 <= |b| && b[i] == 0xFF
    requires b[i + 1] == 0xC4 || b[i + 1] == 0xDA || 0xE0 <= b[i + 1] <= 0xEF || b[i + 1] == 0xFE
    ensures var n := b[i + 2] as int * 256 + b[i + 3];
            var apps := if b[i + 1] == 0xC4 || b[i + 1] == 0xDA then [] else [Segment(i, n + 2)];
            Step(b, i) == if i + 2 + n <= |b| then Next(i + 2 + n, apps) else Fail(apps)
  {
  }

  /** Quantization tables: by their length less 2 in 16 bits, but one byte less for a lone table. */
  lemma StepByTables(b: seq<Byte>, i: nat)
    requires i + 4 <= |b| && b[i] == 0xFF && b[i + 1] == 0xDB
    ensures var m := (b[i + 2] as int * 256 + b[i + 3] - 2) % 0x1_0000;
            var to := if m == 65 then i + 68 else i + 4 + m;
            Step(b, i) == if m % 65 == 0 && to <= |b| then Next(to, []) else Fail([])
  {
    var n := b[i + 2] as int * 256 + b[i + 3];
    assert Word16(b[i + 2], b[i + 3]) == n && LessTwo(n) == (n - 2) % 0x1_0000;
    hide Word16, LessTwo;
  }

  /** All other bytes and markers, and markers at the end of the bytes read. */
  lemma StepElsewhere(b: seq<Byte>, i: nat)
    requires i < |b|
    ensures b[i] != 0xFF ==> Step(b, i) == Next(i + 1, [])
    ensures b[i] == 0xFF && i + 1 == |b| ==> Step(b, i) == Fail([])
    ensures b[i] == 0xFF && i + 1 < |b| && (b[i + 1] == 0xFF || IsUnknown(b[i + 1])) ==> Step(b, i) == Next(i + 2, [])
    ensures b[i] == 0xFF && i + 1 < |b| < i + 4 && b[i + 1] != 0xFF && !IsUnknown(b[i + 1]) ==> Step(b, i) == Fail([])
  {
  }

  // Frames.

  /**
   Of the thirteen frame codes only baseline is accepted,
     code 0xC8 with them: the size is found exactly when the code is
   0xC0, and with any other the segments before it are recorded and the scan is rejected.
   */
  lemma FrameCodeDecides(segs: seq<HeaderSegment>, code: Byte, length: nat, precision: Byte, height: nat, width: nat,
                         rest: seq<Byte>)
    requires AllWellFormed(segs) && Recovers(segs) && |Recorded(segs, 2)| <= 10
    requires length < 0x10000 && height < 0x10000 && width < 0x10000
    requires code in {0xC0, 0xC1, 0xC2, 0xC3, 0xC5, 0xC6, 0xC7, 0xC8, 0xC9, 0xCA, 0xCB, 0xCD, 0xCE, 0xCF}
    ensures var b := UpTo(segs, code, [length / 256, length % 256, precision, height / 256, height % 256,
                                       width / 256, width % 256] + rest);
            Scan(b, 0, [])
            == Scanned(if code == 0xC0 then Size(height, width) else Rejected, Recorded(segs, 2))
  {
    var fields := [length / 256, length % 256, precision, height / 256, height % 256, width / 256, width % 256];
    var tail := fields + rest;
    var b, n := UpTo(segs, code, tail), |EncodeAll(segs)| + 2;
    ScanReaches(segs, code, tail);
    if code == 0xC0 {
      FieldsOfFrame(b, n, length, precision, height, width, rest);
      hide *;
      StepAtFrame(b, n, length, precision, height, width);
      ScanFinds(b, n, Recorded(segs, 2));
    } else {
      assert Step(b, n) == Fail([]);
      hide *;
      ScanFails(b, n, Recorded(segs, 2));
    }
  }

  lemma ScanFinds(b: seq<Byte>, i: nat, apps: seq<Segment>)
    requires i < |b| && Step(b, i).Found?
    ensures Scan(b, i, apps) == Scanned(Size(Step(b, i).height, Step(b, i).width), apps)
  {
  }

  lemma FieldsOfFrame(b: seq<Byte>, n: nat, length: nat, precision: Byte, height: nat, width: nat, rest: seq<Byte>)
    requires length < 0x10000 && height < 0x10000 && width < 0x10000 && n + 2 <= |b|
    requires b[n] == 0xFF && b[n + 1] == 0xC0
    requires b[n + 2..] == [length / 256, length % 256, precision, height / 256, height % 256,
                            width / 256, width % 256] + rest
    ensures n + 9 <= |b| && b[n..n + 9] == Frame(length, precision, height, width)
  {
    var tail := b[n + 2..];
    assert |b| == n + 2 + |tail|;
    assert b[n..n + 9] == [b[n], b[n + 1]] + tail[..7];
  }

  // Quantization tables.

  /**
   A quantization segment is refused when its length, less 2 in 16 bits, is no multiple of 65.  The 16-bit tables of
   129 bytes are among these.
   */
  lemma TableLengthRefused(segs: seq<HeaderSegment>, length: nat, tail: seq<Byte>)
    requires AllWellFormed(segs) && Recovers(segs) && |Recorded(segs, 2)| <= 10
    requires length < 0x10000 && (length + 0xFFFE) % 0x10000 % 65 != 0
    ensures Scan(UpTo(segs, 0xDB, [length / 256, length % 256] + tail), 0, []) == Scanned(Rejected, Recorded(segs, 2))
  {
    var b, n := UpTo(segs, 0xDB, [length / 256, length % 256] + tail), |EncodeAll(segs)| + 2;
    ScanReaches(segs, 0xDB, [length / 256, length % 256] + tail);
    hide *;
    LengthAt(b, n, length, tail);
    StepAtBadTable(b, n, length);
    ScanFails(b, n, Recorded(segs, 2));
  }

  lemma StepAtBadTable(b: seq<Byte>, n: nat, length: nat)
    requires n + 4 <= |b| && b[n] == 0xFF && b[n + 1] == 0xDB && Word16(b[n + 2], b[n + 3]) == length
    requires length < 0x10000 && (length + 0xFFFE) % 0x10000 % 65 != 0
    ensures Step(b, n) == Fail([])
  {
    assert LessTwo(length) == (length + 0xFFFE) % 0x10000;
    hide LessTwo, Word16;
  }

  lemma LengthOfPayload(m: nat)
    requires m <= 65533
    ensures (m + 2 + 0xFFFE) % 0x10000 == m
  {
  }

  lemma LengthAt(b: seq<Byte>, n: nat, length: nat, tail: seq<Byte>)
    requires length < 0x10000 && n + 2 <= |b| && b[n + 2..] == [length / 256, length % 256] + tail
    ensures |b| == n + 4 + |tail| && Word16(b[n + 2], b[n + 3]) == length && b[n + 4..] == tail
  {
    var x := b[n + 2..];
    assert b[n + 2] == x[0] && b[n + 3] == x[1];
    assert x[2..] == tail;
  }

  /**
   With a quantization segment before the frame header, not a lone table ending in 0xFF, the size is found exactly when
   its payload is a multiple of 65 bytes.
   */
  lemma TableLengthDecides(segs: seq<HeaderSegment>, data: seq<Byte>, length: nat, precision: Byte, height: nat,
                           width: nat, rest: seq<Byte>)
    requires AllWellFormed(segs) && Recovers(segs) && |Recorded(segs, 2)| <= 10
    requires |data| <= 65533 && !(|data| == 65 && data[64] == 0xFF)
    requires length < 0x10000 && height < 0x10000 && width < 0x10000
    ensures var n := |data| + 2;
            Scan(UpTo(segs, 0xDB, [n / 256, n % 256] + (data + Frame(length, precision, height, width) + rest)), 0, [])
            == Scanned(if |data| % 65 == 0 then Size(height, width) else Rejected, Recorded(segs, 2))
  {
    var n, frame := |data| + 2, Frame(length, precision, height, width);
    hide *;
    if |data| % 65 != 0 {
      LengthOfPayload(|data|);
      TableLengthRefused(segs, n, data + frame + rest);
    } else {
      TableThenFrame(segs, data, length, precision, height, width, rest);
    }
  }

  lemma TableThenFrame(segs: seq<HeaderSegment>, data: seq<Byte>, length: nat, precision: Byte, height: nat, width: nat,
                       rest: seq<Byte>)
    requires AllWellFormed(segs) && Recovers(segs) && |Recorded(segs, 2)| <= 10
    requires |data| <= 65533 && !(|data| == 65 && data[64] == 0xFF) && |data| % 65 == 0
    requires length < 0x10000 && height < 0x10000 && width < 0x10000
    ensures var n := |data| + 2;
            Scan(UpTo(segs, 0xDB, [n / 256, n % 256] + (data + Frame(length, precision, height, width) + rest)), 0, [])
            == Scanned(Size(height, width), Recorded(segs, 2))
  {
    var n, frame := |data| + 2, Frame(length, precision, height, width);
    var tail := [n / 256, n % 256] + (data + frame + rest);
    var b, i, apps := UpTo(segs, 0xDB, tail), |EncodeAll(segs)| + 2, Recorded(segs, 2);
    hide *;
    ScanReaches(segs, 0xDB, tail);
    TableAndFrame(b, i, data, frame, rest);
    FindsBehindTable(b, i, data, apps, length, precision, height, width);
  }

  lemma FindsBehindTable(b: seq<Byte>, i: nat, data: seq<Byte>, apps: seq<Segment>, length: nat, precision: Byte,
                         height: nat, width: nat)
    requires |data| <= 65533 && !(|data| == 65 && data[64] == 0xFF) && |data| % 65 == 0 && |apps| <= 10
    requires length < 0x10000 && height < 0x10000 && width < 0x10000
    requires var j := i + |data| + 4;
             && j + 9 <= |b| && b[i..j] == Encode(Dqt(data))
             && b[j..j + 9] == Frame(length, precision, height, width)
    ensures Scan(b, i, apps) == Scanned(Size(height, width), apps)
  {
    hide *;
    ScanOverTable(b, i, data, apps);
    StepAtFrame(b, i + |data| + 4, length, precision, height, width);
    ScanFinds(b, i + |data| + 4, apps);
  }

  lemma ScanOverTable(b: seq<Byte>, i: nat, data: seq<Byte>, apps: seq<Segment>)
    requires |data| <= 65533 && !(|data| == 65 && data[64] == 0xFF) && |data| % 65 == 0 && |apps| <= 10
    requires i + |data| + 4 <= |b| && b[i..i + |data| + 4] == Encode(Dqt(data))
    ensures Scan(b, i, apps) == Scan(b, i + |data| + 4, apps)
  {
    hide *;
    TableIs(data);
    SizeOfTables();
    ScanOverSegment(b, i, Dqt(data), apps);
    assert apps + [] == apps;
  }

  lemma TableIs(data: seq<Byte>)
    requires |data| <= 65533 && !(|data| == 65 && data[64] == 0xFF) && |data| % 65 == 0
    ensures WellFormed(Dqt(data)) && !Derails(Dqt(data))
  {
  }

  lemma TableAndFrame(b: seq<Byte>, i: nat, data: seq<Byte>, frame: seq<Byte>, rest: seq<Byte>)
    requires |data| <= 65533 && i + 2 <= |b| && b[i] == 0xFF && b[i + 1] == 0xDB && |frame| == 9
    requires var n := |data| + 2; b[i + 2..] == [n / 256, n % 256] + (data + frame + rest)
    ensures var j := i + |data| + 4;
            j + 9 <= |b| && b[i..j] == Encode(Dqt(data)) && b[j..j + 9] == frame
  {
    var x, n := b[i + 2..], |data| + 2;
    assert |b| == i + 4 + |data| + 9 + |rest|;
    var j := i + |data| + 4;
    assert b[i..j] == [b[i], b[i + 1]] + x[..n];
    assert x[..n] == [n / 256, n % 256] + data;
    assert b[j..j + 9] == x[n..n + 9] == frame;
  }

  // Headers cut short.

  lemma CutSegment(b: seq<Byte>, i: nat, s: HeaderSegment, apps: seq<Segment>)
    requires WellFormed(s) && i + 4 <= |b| < i + |s.data| + 4 && b[i..] == Encode(s)[..|b| - i] && |apps| <= 10
    ensures !Scan(b, i, apps).outcome.Size?
  {
    var e := Encode(s);
    forall k | i <= k < |b|
      ensures b[k] == e[k - i]
    {
      assert b[i..][k - i] == b[k];
    }
    assert e[0] == 0xFF && e[1] == Code(s) && Word16(e[2], e[3]) == |s.data| + 2;
    assert apps + [] == apps && LessTwo(|s.data| + 2) == |s.data|;
    if s.Other? {
      assert Step(b, i) == Next(i + 2, []);
      hide *;
      SizeOfTables();
      ScanTurn(b, i, apps);
      ScanOverQuietBytes(b, i + 2, |b|, apps);
      NoSizeInTail(b, |b|, apps);
    } else {
      hide Encode, Word16, LessTwo;
      assert Step(b, i).Fail? || Step(b, i) == Next(|b|, []);
      hide Step;
    }
  }

  lemma SizeOfTables()
    ensures TABLE_SIZE == 10
  {
  }

  lemma CutPair(t: seq<Byte>, x: seq<Byte>, y: seq<Byte>)
    requires |t| < |x| + |y| && t == (x + y)[..|t|]
    ensures |x| <= |t| ==> t[..|x|] == x && t[|x|..] == y[..|t| - |x|]
    ensures |t| < |x| ==> t == x[..|t|]
  {
  }

  lemma FirstEncoded(segs: seq<HeaderSegment>, frame: seq<Byte>)
    requires AllWellFormed(segs) && segs != []
    ensures WellFormed(segs[0]) && |segs[0].data| <= 65533 && AllWellFormed(segs[1..])
    ensures EncodeAll(segs) + frame == Encode(segs[0]) + (EncodeAll(segs[1..]) + frame)
  {
    hide Encode;
  }

  lemma TailParts(b: seq<Byte>, i: nat, n: nat)
    requires i + n <= |b|
    ensures b[i..][..n] == b[i..i + n] && b[i..][n..] == b[i + n..]
  {
  }

  lemma CutFirst(b: seq<Byte>, i: nat, segs: seq<HeaderSegment>, frame: seq<Byte>)
    requires AllWellFormed(segs) && segs != [] && i <= |b|
    requires |b| - i < |EncodeAll(segs)| + |frame| && b[i..] == (EncodeAll(segs) + frame)[..|b| - i]
    ensures WellFormed(segs[0]) && AllWellFormed(segs[1..])
    ensures var j := i + |segs[0].data| + 4;
            if j <= |b| then
              && b[i..j] == Encode(segs[0]) && |b| - j < |EncodeAll(segs[1..])| + |frame|
              && b[j..] == (EncodeAll(segs[1..]) + frame)[..|b| - j]
            else b[i..] == Encode(segs[0])[..|b| - i]
  {
    hide *;
    FirstEncoded(segs, frame);
    var x, y := Encode(segs[0]), EncodeAll(segs[1..]) + frame;
    CutPair(b[i..], x, y);
    if i + |x| <= |b| {
      TailParts(b, i, |x|);
    }
  }

  lemma {:induction false} CutSegments(b: seq<Byte>, i: nat, segs: seq<HeaderSegment>, frame: seq<Byte>,
                                       apps: seq<Segment>)
    requires AllWellFormed(segs) && NoneDerails(segs) && i <= |b| && |apps| <= 10 && |frame| == 9
    requires |b| - i < |EncodeAll(segs)| + |frame| && b[i..] == (EncodeAll(segs) + frame)[..|b| - i]
    ensures !Scan(b, i, apps).outcome.Size?
    decreases |segs|
  {
    NoSegments(i, apps);
    SizeOfTables();
    hide *;
    if |b| < i + 9 {
      NoSizeInTail(b, i, apps);
    } else {
      var s, j := segs[0], i + |segs[0].data| + 4;
      CutFirst(b, i, segs, frame);
      NoneDerailsSplits(segs);
      if j <= |b| {
        var all := apps + if s.App? then [Segment(i, |s.data| + 4)] else [];
        ScanOverSegment(b, i, s, apps);
        if |all| <= 10 {
          CutSegments(b, j, segs[1..], frame, all);
        }
      } else {
        CutSegment(b, i, s, apps);
      }
    }
  }

  /** Of a header that does not derail the scanner, the size is found exactly when all of its frame header is there. */
  lemma SizeNeedsWholeFrame(segs: seq<HeaderSegment>, length: nat, precision: Byte, height: nat, width: nat,
                            rest: seq<Byte>, n: nat)
    requires AllWellFormed(segs) && NoneDerails(segs) && |AppSegments(segs, 2)| <= 10
    requires length < 0x10000 && height < 0x10000 && width < 0x10000
    requires n <= |Header(segs, length, precision, height, width, rest)|
    ensures Scan(Header(segs, length, precision, height, width, rest)[..n], 0, []).outcome.Size?
            <==> n >= |EncodeAll(segs)| + 11
  {
    var whole, m := Header(segs, length, precision, height, width, rest), |EncodeAll(segs)|;
    var frame := Frame(length, precision, height, width);
    HeaderParts(segs, length, precision, height, width, rest);
    if n >= m + 11 {
      assert whole[..n] == Header(segs, length, precision, height, width, rest[..n - (m + 11)]);
      ScanHeader(segs, length, precision, height, width, rest[..n - (m + 11)]);
    } else {
      var b := whole[..n];
      if n < 9 {
        hide *;
        NoSizeInTail(b, 0, []);
      } else {
        assert b[2..] == (EncodeAll(segs) + frame)[..n - 2];
        assert Step(b, 0) == Next(2, []);
        hide *;
        SizeOfTables();
        ScanTurn(b, 0, []);
        CutSegments(b, 2, segs, frame, []);
      }
    }
  }
}
