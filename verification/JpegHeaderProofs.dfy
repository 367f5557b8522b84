/**
 What the marker scanner guarantees: a result does not change when more bytes arrive, recorded
 segments are where they should be, and exactly which well-formed headers are read right.
 */
module JpegHeaderProofs {
  import opened Machine
  import opened JpegHeader

  // Stability.

  lemma StepIsStable(b: seq<Byte>, more: seq<Byte>, i: nat)
    requires i < |b| && !Step(b, i).Fail?
    ensures Step(b + more, i) == Step(b, i)
  {
  }

  /**
   Once the size has been found in the bytes read so far, reading more bytes changes neither the
   answer nor the recorded segments.
   */
  lemma {:induction false} ScanIsStable(b: seq<Byte>, more: seq<Byte>, i: nat, apps: seq<Segment>)
    requires i <= |b| && Scan(b, i, apps).outcome.Size?
    ensures Scan(b + more, i, apps) == Scan(b, i, apps)
    decreases |b| - i
  {
    hide Step;
    var m := Step(b, i);
    StepIsStable(b, more, i);
    if m.Next? {
      ScanIsStable(b, more, m.index, apps + m.apps);
    }
  }

  // Recorded segments.

  /** Segments in order, apart from each other, between lo and hi. */
  ghost predicate InOrder(apps: seq<Segment>, lo: nat, hi: nat) {
    && (forall k :: 0 <= k < |apps| ==> lo <= apps[k].offset && apps[k].offset + apps[k].size <= hi)
    && (forall j, k :: 0 <= j < k < |apps| ==> apps[j].offset + apps[j].size <= apps[k].offset)
  }

  lemma StepRecords(b: seq<Byte>, i: nat)
    requires i < |b| && Step(b, i).Next?
    ensures var m := Step(b, i);
            m.apps == [] || exists n :: m.apps == [Segment(i, n)] && i + n == m.index && n >= 2
  {
    var m := Step(b, i);
    if m.apps != [] {
      assert m.apps == [Segment(i, m.index - i)];
    }
  }

  /** A successful scan leaves at most ten segments, inside the buffer, disjoint and in file order. */
  lemma {:induction false} SegmentsInOrder(b: seq<Byte>, i: nat, apps: seq<Segment>)
    requires i <= |b| && InOrder(apps, 0, i) && |apps| <= TABLE_SIZE
    ensures var r := Scan(b, i, apps);
            |r.apps| <= TABLE_SIZE && (r.outcome.Size? ==> InOrder(r.apps, 0, |b|))
    decreases |b| - i
  {
    hide Step;
    if i < |b| {
      var m := Step(b, i);
      if m.Next? && |apps + m.apps| <= TABLE_SIZE {
        StepRecords(b, i);
        SegmentsInOrder(b, m.index, apps + m.apps);
      }
    }
  }

  /** A step that stops at a segment has recorded it, and it reaches past the bytes read. */
  lemma StepTruncates(b: seq<Byte>, i: nat)
    requires i < |b| && Step(b, i).Fail?
    ensures var m := Step(b, i);
            m.apps == [] || exists n :: m.apps == [Segment(i, n)] && |b| < i + n <= |b| + 65533
  {
    var m := Step(b, i);
    if m.apps != [] {
      var n := m.apps[0].size;
      assert m.apps == [Segment(i, n)] && n == Word16(b[i + 2], b[i + 3]) + 2;
    }
  }

  /** All segments in order, but for the last one, which starts behind the others and reaches past hi. */
  ghost predicate LastTruncated(apps: seq<Segment>, lo: nat, hi: nat) {
    && apps != []
    && InOrder(apps[..|apps| - 1], lo, hi)
    && (forall k :: 0 <= k < |apps| - 1 ==> apps[k].offset + apps[k].size <= apps[|apps| - 1].offset)
    && apps[|apps| - 1].offset < hi < apps[|apps| - 1].offset + apps[|apps| - 1].size <= hi + 65533
  }

  /**
   Whatever the outcome, the recorded segments are in order inside the buffer; or else the scan was rejected, and just
   the last of them reaches past the bytes read.
   */
  lemma {:induction false} SegmentsExactly(b: seq<Byte>, i: nat, apps: seq<Segment>)
    requires i <= |b| && InOrder(apps, 0, i) && |apps| <= TABLE_SIZE
    ensures var r := Scan(b, i, apps);
            && |r.apps| <= TABLE_SIZE
            && (InOrder(r.apps, 0, |b|) || (r.outcome == Rejected && LastTruncated(r.apps, 0, |b|)))
    decreases |b| - i
  {
    hide Step;
    if i < |b| {
      var m := Step(b, i);
      if m.Fail? {
        StepTruncates(b, i);
        if m.apps != [] {
          assert (apps + m.apps)[..|apps|] == apps;
        }
      } else if m.Next? && |apps + m.apps| <= TABLE_SIZE {
        StepRecords(b, i);
        SegmentsExactly(b, m.index, apps + m.apps);
      }
    }
  }

  lemma StepRecordsStably(b: seq<Byte>, more: seq<Byte>, i: nat)
    requires i < |b| && Step(b, i).Fail? && Step(b, i).apps != []
    ensures !Step(b + more, i).Found? && Step(b + more, i).apps == Step(b, i).apps
  {
  }

  /** Where a scan finds no place for a segment, scanning more bytes finds none either. */
  lemma {:induction false} TableFullIsStable(b: seq<Byte>, more: seq<Byte>, i: nat, apps: seq<Segment>)
    requires i <= |b| && |apps| <= TABLE_SIZE && Scan(b, i, apps).outcome.TableFull?
    ensures Scan(b + more, i, apps).outcome.TableFull?
    decreases |b| - i
  {
    hide Step;
    var m := Step(b, i);
    assert apps + [] == apps;
    if m.Fail? {
      StepRecordsStably(b, more, i);
    } else {
      StepIsStable(b, more, i);
      if m.Next? && |apps + m.apps| <= TABLE_SIZE {
        TableFullIsStable(b, more, m.index, apps + m.apps);
      }
    }
  }

  // Headers, section B.2 of ITU-T T.81.

  /** Other: a segment that the scanner does not know, for instance a restart interval. */
  datatype HeaderSegment =
    | App(code: Byte, data: seq<Byte>)
    | Dht(data: seq<Byte>)
    | Dqt(data: seq<Byte>)
    | Sos(data: seq<Byte>)
    | Other(code: Byte, data: seq<Byte>)

  /**
   Legal codes and lengths; quantization tables are 65 bytes each.  An unknown segment is read byte by byte, so it must
   not hold a 0xFF.
   */
  ghost predicate WellFormed(s: HeaderSegment) {
    && |s.data| <= 65533
    && (s.App? ==> 0xE0 <= s.code <= 0xEF || s.code == 0xFE)
    && (s.Dqt? ==> |s.data| % 65 == 0)
    && (s.Other? ==> IsUnknown(s.code) && forall k :: 2 <= k < |s.data| + 4 ==> Encode(s)[k] != 0xFF)
  }

  /** Neither a frame, table or scan header nor an application or comment segment. */
  predicate IsUnknown(code: Byte) {
    code < 0xC0 || code == 0xCC || 0xD0 <= code <= 0xD9 || 0xDC <= code <= 0xDF || 0xF0 <= code <= 0xFD
  }

  /** A lone quantization table that ends in 0xFF, where the scanner loses its place. */
  ghost predicate Derails(s: HeaderSegment) {
    s.Dqt? && |s.data| == 65 && s.data[64] == 0xFF
  }

  ghost predicate NoneDerails(segs: seq<HeaderSegment>) {
    forall k :: 0 <= k < |segs| ==> !Derails(segs[k])
  }

  lemma NoneDerailsSplits(segs: seq<HeaderSegment>)
    requires segs != []
    ensures NoneDerails(segs) <==> !Derails(segs[0]) && NoneDerails(segs[1..])
  {
  }

  function Code(s: HeaderSegment): Byte {
    match s
    case App(code, _) => code
    case Dht(_) => 0xC4
    case Dqt(_) => 0xDB
    case Sos(_) => 0xDA
    case Other(code, _) => code
  }

  function Hi(n: nat): Byte
    requires n < 0x10000
  {
    n / 256
  }

  function Lo(n: nat): Byte {
    n % 256
  }

  function Encode(s: HeaderSegment): (b: seq<Byte>)
    requires |s.data| <= 65533
    ensures |b| == |s.data| + 4
  {
    [0xFF, Code(s), Hi(|s.data| + 2), Lo(|s.data| + 2)] + s.data
  }

  ghost predicate AllWellFormed(segs: seq<HeaderSegment>) {
    forall k :: 0 <= k < |segs| ==> WellFormed(segs[k])
  }

  function EncodeAll(segs: seq<HeaderSegment>): seq<Byte>
    requires AllWellFormed(segs)
  {
    if segs == [] then [] else Encode(segs[0]) + EncodeAll(segs[1..])
  }

  /** The baseline frame header up to the image size. */
  function Frame(length: nat, precision: Byte, height: nat, width: nat): (b: seq<Byte>)
    requires length < 0x10000 && height < 0x10000 && width < 0x10000
    ensures |b| == 9
  {
    [0xFF, 0xC0, Hi(length), Lo(length), precision, Hi(height), Lo(height), Hi(width), Lo(width)]
  }

  /** The segments of a list that the scanner records, when the list starts at offset `at`. */
  function AppSegments(segs: seq<HeaderSegment>, at: nat): seq<Segment> {
    if segs == [] then []
    else
      (if segs[0].App? then [Segment(at, |segs[0].data| + 4)] else []) +
      AppSegments(segs[1..], at + |segs[0].data| + 4)
  }

  lemma EncodedBytes(b: seq<Byte>, i: nat, s: HeaderSegment)
    requires |s.data| <= 65533 && i + |s.data| + 4 <= |b| && b[i..i + |s.data| + 4] == Encode(s)
    ensures b[i] == 0xFF && b[i + 1] == Code(s)
    ensures Word16(b[i + 2], b[i + 3]) == |s.data| + 2
    ensures |s.data| > 0 ==> b[i + |s.data| + 3] == s.data[|s.data| - 1]
  {
  }

  /** From a segment other than a lone table or an unknown one, the scanner goes to the next one. */
  lemma StepOverSegment(b: seq<Byte>, i: nat, s: HeaderSegment)
    requires WellFormed(s) && !(s.Dqt? && |s.data| == 65) && !s.Other?
    requires i + |s.data| + 4 <= |b| && b[i..i + |s.data| + 4] == Encode(s)
    ensures Step(b, i) == Next(i + |s.data| + 4, if s.App? then [Segment(i, |s.data| + 4)] else [])
  {
    EncodedBytes(b, i, s);
    assert LessTwo(|s.data| + 2) == |s.data|;
    hide Encode, Word16, LessTwo;
    match s {
      case App(code, _) => assert b[i + 1] == code;
      case Dht(_) => assert b[i + 1] == 0xC4;
      case Dqt(_) => assert b[i + 1] == 0xDB;
      case Sos(_) => assert b[i + 1] == 0xDA;
    }
  }

  /** From the marker of an unknown segment the scanner goes on to its length, and finds no other marker in it. */
  lemma StepIntoUnknown(b: seq<Byte>, i: nat, s: HeaderSegment)
    requires WellFormed(s) && s.Other?
    requires i + |s.data| + 4 <= |b| && b[i..i + |s.data| + 4] == Encode(s)
    ensures Step(b, i) == Next(i + 2, [])
    ensures forall k :: i + 2 <= k < i + |s.data| + 4 ==> b[k] != 0xFF
  {
    var e := Encode(s);
    forall k | i <= k < i + |s.data| + 4
      ensures b[k] == e[k - i]
    {
      assert b[i..i + |s.data| + 4][k - i] == b[k];
    }
    assert e[0] == 0xFF && e[1] == s.code;
  }

  lemma {:induction false} ScanOverQuietBytes(b: seq<Byte>, i: nat, j: nat, apps: seq<Segment>)
    requires i <= j <= |b| && |apps| <= TABLE_SIZE
    requires forall k :: i <= k < j ==> b[k] != 0xFF
    ensures Scan(b, i, apps) == Scan(b, j, apps)
    decreases j - i
  {
    if i < j {
      assert apps + [] == apps;
      hide AtMarker;
      ScanOverQuietBytes(b, i + 1, j, apps);
    }
  }

  /** A lone table is skipped up to its last byte. */
  lemma StepIntoTable(b: seq<Byte>, i: nat, s: HeaderSegment)
    requires s.Dqt? && |s.data| == 65
    requires i + 69 <= |b| && b[i..i + 69] == Encode(s)
    ensures Step(b, i) == Next(i + 68, []) && b[i + 68] == s.data[64]
  {
  }

  /** Two 0xFF in a row are passed over together. */
  lemma StepOverDoubleMarker(b: seq<Byte>, i: nat)
    requires i + 1 < |b| && b[i] == 0xFF && b[i + 1] == 0xFF
    ensures Step(b, i) == Next(i + 2, [])
  {
  }

  lemma ScanTurn(b: seq<Byte>, i: nat, apps: seq<Segment>)
    requires i < |b| && Step(b, i).Next? && |apps + Step(b, i).apps| <= TABLE_SIZE
    ensures Scan(b, i, apps) == Scan(b, Step(b, i).index, apps + Step(b, i).apps)
  {
  }

  /** A segment that does not derail the scanner costs it one or two turns of its loop. */
  lemma ScanOverSegment(b: seq<Byte>, i: nat, s: HeaderSegment, apps: seq<Segment>)
    requires WellFormed(s) && !Derails(s)
    requires i + |s.data| + 4 <= |b| && b[i..i + |s.data| + 4] == Encode(s)
    ensures var all := apps + if s.App? then [Segment(i, |s.data| + 4)] else [];
            if |all| <= TABLE_SIZE then Scan(b, i, apps) == Scan(b, i + |s.data| + 4, all)
            else |apps| <= TABLE_SIZE ==> Scan(b, i, apps).outcome.TableFull?
  {
    hide Encode, Step, Scan, IsUnknown;
    if |apps| <= TABLE_SIZE {
      if s.Dqt? && |s.data| == 65 {
        ScanOverLoneTable(b, i, s, apps);
      } else if s.Other? {
        ScanOverUnknown(b, i, s, apps);
      } else {
        StepOverSegment(b, i, s);
        ScanAt(b, i, apps);
      }
      assert apps + [] == apps;
    }
  }

  lemma ScanAt(b: seq<Byte>, i: nat, apps: seq<Segment>)
    requires i < |b| && Step(b, i).Next?
    ensures var m := Step(b, i);
            if |apps + m.apps| <= TABLE_SIZE then Scan(b, i, apps) == Scan(b, m.index, apps + m.apps)
            else Scan(b, i, apps).outcome.TableFull?
  {
    hide Step;
  }

  lemma ScanOverLoneTable(b: seq<Byte>, i: nat, s: HeaderSegment, apps: seq<Segment>)
    requires s.Dqt? && |s.data| == 65 && !Derails(s) && |apps| <= TABLE_SIZE
    requires i + 69 <= |b| && b[i..i + 69] == Encode(s)
    ensures Scan(b, i, apps) == Scan(b, i + 69, apps)
  {
    StepIntoTable(b, i, s);
    assert apps + [] == apps;
    hide Encode, AtMarker;
    assert Step(b, i + 68) == Next(i + 69, []);
    hide *;
    ScanTurn(b, i, apps);
    ScanTurn(b, i + 68, apps);
  }

  lemma ScanOverUnknown(b: seq<Byte>, i: nat, s: HeaderSegment, apps: seq<Segment>)
    requires WellFormed(s) && s.Other? && |apps| <= TABLE_SIZE
    requires i + |s.data| + 4 <= |b| && b[i..i + |s.data| + 4] == Encode(s)
    ensures Scan(b, i, apps) == Scan(b, i + |s.data| + 4, apps)
  {
    StepIntoUnknown(b, i, s);
    assert apps + [] == apps;
    hide *;
    ScanTurn(b, i, apps);
    ScanOverQuietBytes(b, i + 2, i + |s.data| + 4, apps);
  }

  /** The scanner's way through a list of segments that do not derail it. */
  lemma {:induction false} ScanSegments(b: seq<Byte>, i: nat, segs: seq<HeaderSegment>, apps: seq<Segment>)
    requires AllWellFormed(segs) && NoneDerails(segs)
    requires i + |EncodeAll(segs)| <= |b| && b[i..i + |EncodeAll(segs)|] == EncodeAll(segs)
    requires |apps| <= TABLE_SIZE
    ensures var all := apps + AppSegments(segs, i);
            if |all| <= TABLE_SIZE then Scan(b, i, apps) == Scan(b, i + |EncodeAll(segs)|, all)
            else Scan(b, i, apps).outcome.TableFull?
    decreases |segs|
  {
    hide *;
    if segs == [] {
      NoSegments(i, apps);
    } else {
      var s := segs[0];
      var j := i + |s.data| + 4;
      var here := apps + if s.App? then [Segment(i, |s.data| + 4)] else [];
      SplitSegments(b, i, segs);
      NoneDerailsSplits(segs);
      AppSegmentsTurn(segs, i, apps);
      ScanOverSegment(b, i, s, apps);
      if |here| <= TABLE_SIZE {
        ScanSegments(b, j, segs[1..], here);
      }
    }
  }

  lemma NoSegments(i: nat, apps: seq<Segment>)
    ensures apps + AppSegments([], i) == apps && |EncodeAll([])| == 0
  {
  }

  lemma AppSegmentsTurn(segs: seq<HeaderSegment>, i: nat, apps: seq<Segment>)
    requires segs != []
    ensures var s := segs[0];
            var here := apps + if s.App? then [Segment(i, |s.data| + 4)] else [];
            var all := apps + AppSegments(segs, i);
            all == here + AppSegments(segs[1..], i + |s.data| + 4) && |here| <= |all|
  {
    var s := segs[0];
    var here := if s.App? then [Segment(i, |s.data| + 4)] else [];
    var later := AppSegments(segs[1..], i + |s.data| + 4);
    assert AppSegments(segs, i) == here + later;
    hide *;
    Associative(apps, here, later);
  }

  lemma Associative(x: seq<Segment>, y: seq<Segment>, z: seq<Segment>)
    ensures x + (y + z) == (x + y) + z
  {
  }

  lemma SplitSegments(b: seq<Byte>, i: nat, segs: seq<HeaderSegment>)
    requires AllWellFormed(segs) && segs != []
    requires i + |EncodeAll(segs)| <= |b| && b[i..i + |EncodeAll(segs)|] == EncodeAll(segs)
    ensures var j := i + |segs[0].data| + 4;
            && WellFormed(segs[0]) && AllWellFormed(segs[1..])
            && |EncodeAll(segs)| == |segs[0].data| + 4 + |EncodeAll(segs[1..])|
            && b[i..j] == Encode(segs[0])
            && b[j..j + |EncodeAll(segs[1..])|] == EncodeAll(segs[1..])
  {
    var x, y := Encode(segs[0]), EncodeAll(segs[1..]);
    assert EncodeAll(segs) == x + y;
    hide *;
    SplitSlice(b, i, x, y);
  }

  /** A whole header: start of image, segments, the frame header, and whatever follows. */
  function Header(segs: seq<HeaderSegment>, length: nat, precision: Byte, height: nat, width: nat,
                  rest: seq<Byte>): seq<Byte>
    requires AllWellFormed(segs) && length < 0x10000 && height < 0x10000 && width < 0x10000
  {
    [0xFF, 0xD8] + EncodeAll(segs) + Frame(length, precision, height, width) + rest
  }

  lemma HeaderParts(segs: seq<HeaderSegment>, length: nat, precision: Byte, height: nat, width: nat, rest: seq<Byte>)
    requires AllWellFormed(segs) && length < 0x10000 && height < 0x10000 && width < 0x10000
    ensures var b, n := Header(segs, length, precision, height, width, rest), |EncodeAll(segs)|;
            && |b| == n + 11 + |rest|
            && b[0] == 0xFF && b[1] == 0xD8
            && b[2..2 + n] == EncodeAll(segs)
            && b[n + 2..n + 11] == Frame(length, precision, height, width)
  {
  }

  lemma StepAtFrame(b: seq<Byte>, i: nat, length: nat, precision: Byte, height: nat, width: nat)
    requires length < 0x10000 && height < 0x10000 && width < 0x10000
    requires i + 9 <= |b| && b[i..i + 9] == Frame(length, precision, height, width)
    ensures Step(b, i) == Found(height, width)
  {
    FrameBytes(b, i, length, precision, height, width);
    hide Frame, Word16;
  }

  lemma FrameBytes(b: seq<Byte>, i: nat, length: nat, precision: Byte, height: nat, width: nat)
    requires length < 0x10000 && height < 0x10000 && width < 0x10000
    requires i + 9 <= |b| && b[i..i + 9] == Frame(length, precision, height, width)
    ensures b[i] == 0xFF && b[i + 1] == 0xC0
    ensures Word16(b[i + 5], b[i + 6]) == height && Word16(b[i + 7], b[i + 8]) == width
  {
    var x := b[i..i + 9];
    assert b[i] == x[0] && b[i + 1] == x[1] && b[i + 5] == x[5] && b[i + 6] == x[6];
    assert b[i + 7] == x[7] && b[i + 8] == x[8];
  }

  /**
   Header round trip: if no segment derails the scanner it finds exactly the height and width of
   the frame header and records exactly the application and comment segments, unless there are
   more than ten of those.
   */
  lemma ScanHeader(segs: seq<HeaderSegment>, length: nat, precision: Byte, height: nat, width: nat, rest: seq<Byte>)
    requires AllWellFormed(segs) && length < 0x10000 && height < 0x10000 && width < 0x10000
    requires NoneDerails(segs)
    ensures var r := Scan(Header(segs, length, precision, height, width, rest), 0, []);
            if |AppSegments(segs, 2)| <= 10 then r == Scanned(Size(height, width), AppSegments(segs, 2))
            else r.outcome == TableFull
  {
    var b := Header(segs, length, precision, height, width, rest);
    HeaderParts(segs, length, precision, height, width, rest);
    assert Step(b, 0) == Next(2, []);
    hide Step, Header, EncodeAll, AppSegments;
    ScanTurn(b, 0, []);
    ScanSegments(b, 2, segs, []);
    assert [] + AppSegments(segs, 2) == AppSegments(segs, 2);
    StepAtFrame(b, 2 + |EncodeAll(segs)|, length, precision, height, width);
  }

  // Where the scanner loses its place.

  /** The scan that starts at i comes to stand at j. */
  ghost predicate Visits(b: seq<Byte>, i: nat, j: nat)
    requires i <= |b|
    decreases |b| - i
  {
    i == j || (i < |b| && i < j && Step(b, i).Next? && Visits(b, Step(b, i).index, j))
  }

  lemma {:induction false} VisitsChain(b: seq<Byte>, i: nat, j: nat, k: nat)
    requires i <= |b| && j <= |b| && Visits(b, i, j) && j <= k
    ensures Visits(b, i, k) <==> Visits(b, j, k)
    decreases |b| - i
  {
    hide Step;
    if i != j {
      VisitsChain(b, Step(b, i).index, j, k);
    }
  }

  /** From each segment of the list in turn, the scan comes to stand at the next. */
  ghost predicate KeepsPlace(b: seq<Byte>, i: nat, segs: seq<HeaderSegment>)
    requires AllWellFormed(segs) && i + |EncodeAll(segs)| <= |b|
    decreases |segs|
  {
    segs == [] ||
    var j := i + |segs[0].data| + 4;
    Visits(b, i, j) && KeepsPlace(b, j, segs[1..])
  }

  lemma VisitsTurn(b: seq<Byte>, i: nat, j: nat)
    requires i < j && i < |b| && Step(b, i).Next?
    ensures Visits(b, i, j) <==> Visits(b, Step(b, i).index, j)
  {
  }

  lemma VisitsNext(b: seq<Byte>, i: nat, s: HeaderSegment)
    requires WellFormed(s)
    requires i + |s.data| + 4 < |b| && b[i..i + |s.data| + 4] == Encode(s) && b[i + |s.data| + 4] == 0xFF
    ensures Visits(b, i, i + |s.data| + 4) <==> !Derails(s)
  {
    var j := i + |s.data| + 4;
    if s.Dqt? && |s.data| == 65 {
      StepIntoTable(b, i, s);
      if Derails(s) {
        StepOverDoubleMarker(b, i + 68);
        hide Encode, Step;
        VisitsTurn(b, i, j);
        VisitsTurn(b, i + 68, j);
      } else {
        hide Encode, AtMarker;
        assert Step(b, i + 68) == Next(i + 69, []);
        hide Step;
        VisitsTurn(b, i, j);
        VisitsTurn(b, i + 68, j);
      }
    } else if s.Other? {
      StepIntoUnknown(b, i, s);
      hide Encode, Step;
      VisitsTurn(b, i, j);
      VisitsOverQuietBytes(b, i + 2, j);
    } else {
      hide Encode, Step;
      StepOverSegment(b, i, s);
      VisitsTurn(b, i, j);
    }
  }

  lemma {:induction false} VisitsOverQuietBytes(b: seq<Byte>, i: nat, j: nat)
    requires i <= j <= |b| && forall k :: i <= k < j ==> b[k] != 0xFF
    ensures Visits(b, i, j)
    decreases j - i
  {
    hide AtMarker;
    if i < j {
      VisitsOverQuietBytes(b, i + 1, j);
    }
  }

  lemma NextMarker(b: seq<Byte>, i: nat, segs: seq<HeaderSegment>)
    requires AllWellFormed(segs) && i + |EncodeAll(segs)| < |b|
    requires b[i..i + |EncodeAll(segs)|] == EncodeAll(segs) && b[i + |EncodeAll(segs)|] == 0xFF
    ensures b[i] == 0xFF
  {
    if segs == [] {
      assert |EncodeAll(segs)| == 0;
    } else {
      hide Encode;
      SplitSegments(b, i, segs);
      EncodedBytes(b, i, segs[0]);
    }
  }

  lemma KeepsPlaceTurn(b: seq<Byte>, i: nat, segs: seq<HeaderSegment>)
    requires AllWellFormed(segs) && segs != [] && AllWellFormed(segs[1..])
    requires i + |EncodeAll(segs)| <= |b|
    requires |EncodeAll(segs)| == |segs[0].data| + 4 + |EncodeAll(segs[1..])|
    ensures KeepsPlace(b, i, segs) <==>
              Visits(b, i, i + |segs[0].data| + 4) && KeepsPlace(b, i + |segs[0].data| + 4, segs[1..])
  {
  }

  lemma EmptyKeepsPlace(b: seq<Byte>, i: nat)
    requires i <= |b|
    ensures KeepsPlace(b, i, []) && NoneDerails([])
  {
  }

  /**
   The scanner stands at every segment in turn, and at the marker that follows the list, exactly
   when no segment is a lone quantization table ending in 0xFF.
   */
  lemma {:induction false} KeepsPlaceExactly(b: seq<Byte>, i: nat, segs: seq<HeaderSegment>)
    requires AllWellFormed(segs) && i + |EncodeAll(segs)| < |b|
    requires b[i..i + |EncodeAll(segs)|] == EncodeAll(segs) && b[i + |EncodeAll(segs)|] == 0xFF
    ensures KeepsPlace(b, i, segs) <==> NoneDerails(segs)
    decreases |segs|
  {
    hide *;
    if segs == [] {
      EmptyKeepsPlace(b, i);
    } else {
      var j := i + |segs[0].data| + 4;
      SplitSegments(b, i, segs);
      NoneDerailsSplits(segs);
      NextMarker(b, j, segs[1..]);
      VisitsNext(b, i, segs[0]);
      KeepsPlaceTurn(b, i, segs);
      KeepsPlaceExactly(b, j, segs[1..]);
    }
  }

  /** The scan that starts at i comes to stand at the start of every segment of the list at j, and at its end. */
  ghost predicate VisitsAll(b: seq<Byte>, i: nat, j: nat, segs: seq<HeaderSegment>)
    requires i <= |b|
    decreases |segs|
  {
    Visits(b, i, j) && (segs == [] || VisitsAll(b, i, j + |segs[0].data| + 4, segs[1..]))
  }

  lemma {:induction false} VisitsAllKeepsPlace(b: seq<Byte>, i: nat, j: nat, segs: seq<HeaderSegment>)
    requires i <= |b| && AllWellFormed(segs) && j + |EncodeAll(segs)| <= |b|
    requires b[j..j + |EncodeAll(segs)|] == EncodeAll(segs) && Visits(b, i, j)
    ensures VisitsAll(b, i, j, segs) <==> KeepsPlace(b, j, segs)
    decreases |segs|
  {
    hide Visits, Encode, WellFormed, EncodeAll;
    if segs != [] {
      var k := j + |segs[0].data| + 4;
      SplitSegments(b, j, segs);
      VisitsChain(b, i, j, k);
      if Visits(b, i, k) {
        VisitsAllKeepsPlace(b, i, k, segs[1..]);
      }
    }
  }

  /**
   In a whole header the scan from its first byte stands at every segment and at the frame header exactly when no
   segment is a lone quantization table ending in 0xFF.
   */
  lemma HeaderVisitedExactly(segs: seq<HeaderSegment>, length: nat, precision: Byte, height: nat, width: nat,
                             rest: seq<Byte>)
    requires AllWellFormed(segs) && length < 0x10000 && height < 0x10000 && width < 0x10000
    ensures VisitsAll(Header(segs, length, precision, height, width, rest), 0, 2, segs) <==> NoneDerails(segs)
  {
    var b, n := Header(segs, length, precision, height, width, rest), |EncodeAll(segs)|;
    HeaderParts(segs, length, precision, height, width, rest);
    assert b[n + 2] == b[n + 2..n + 11][0] == 0xFF;
    assert Step(b, 0) == Next(2, []) && Visits(b, 2, 2);
    hide *;
    VisitsTurn(b, 0, 2);
    VisitsAllKeepsPlace(b, 0, 2, segs);
    KeepsPlaceExactly(b, 2, segs);
  }

  /** Nine bytes are the least in which the scanner can still find a size. */
  lemma {:induction false} NoSizeInTail(b: seq<Byte>, i: nat, apps: seq<Segment>)
    requires i <= |b| < i + 9
    ensures !Scan(b, i, apps).outcome.Size?
    decreases |b| - i
  {
    if i < |b| {
      var m := Step(b, i);
      assert !m.Found?;
      hide Step;
      if m.Next? {
        NoSizeInTail(b, m.index, apps + m.apps);
      }
    }
  }

  /** From a lone table that ends in 0xFF, eight bytes after the next 0xFF are not enough. */
  lemma DerailedTail(b: seq<Byte>, i: nat, table: HeaderSegment, apps: seq<Segment>)
    requires Derails(table) && |apps| <= TABLE_SIZE
    requires |b| == i + 78 && b[i..i + 69] == Encode(table) && b[i + 69] == 0xFF
    ensures !Scan(b, i, apps).outcome.Size?
  {
    assert table.Dqt? && |table.data| == 65 && table.data[64] == 0xFF;
    assert apps + [] == apps;
    hide *;
    StepIntoTable(b, i, table);
    StepOverDoubleMarker(b, i + 68);
    ScanTurn(b, i, apps);
    ScanTurn(b, i + 68, apps);
    NoSizeInTail(b, i + 70, apps);
  }

  /** The same after other segments. */
  lemma DerailedScan(b: seq<Byte>, init: seq<HeaderSegment>, table: HeaderSegment)
    requires AllWellFormed(init) && NoneDerails(init) && |AppSegments(init, 2)| <= TABLE_SIZE
    requires WellFormed(table) && Derails(table)
    requires |b| == |EncodeAll(init)| + 80 && b[0] == 0xFF && b[1] == 0xD8
    requires b[2..|EncodeAll(init)| + 71] == EncodeAll(init) + Encode(table)
    requires b[|EncodeAll(init)| + 71] == 0xFF
    ensures !Scan(b, 0, []).outcome.Size?
  {
    var i := 2 + |EncodeAll(init)|;
    assert Step(b, 0) == Next(2, []);
    assert |table.data| == 65;
    var apps := AppSegments(init, 2);
    assert [] + apps == apps;
    hide *;
    SplitSlice(b, 2, EncodeAll(init), Encode(table));
    ScanTurn(b, 0, []);
    ScanSegments(b, 2, init, []);
    DerailedTail(b, i, table, apps);
  }

  /**
   With a lone table right before the frame header, and nothing read beyond the frame header's size
   fields, the scanner finds the size exactly when the table does not end in 0xFF.
   */
  lemma LastTableDecides(init: seq<HeaderSegment>, table: HeaderSegment, length: nat, precision: Byte, height: nat,
                         width: nat)
    requires AllWellFormed(init) && WellFormed(table) && table.Dqt? && |table.data| == 65
    requires AllWellFormed(init + [table])
    requires length < 0x10000 && height < 0x10000 && width < 0x10000
    requires NoneDerails(init) && |AppSegments(init, 2)| <= TABLE_SIZE
    ensures var r := Scan(Header(init + [table], length, precision, height, width, []), 0, []);
            r.outcome == Size(height, width) <==> table.data[64] != 0xFF
  {
    var segs := init + [table];
    var b := Header(segs, length, precision, height, width, []);
    EncodeAllAppends(init, table);
    if table.data[64] != 0xFF {
      AppSegmentsAppends(init, table, 2);
      ScanHeader(segs, length, precision, height, width, []);
    } else {
      HeaderParts(segs, length, precision, height, width, []);
      var n := |EncodeAll(segs)|;
      assert b[n + 2] == b[n + 2..n + 11][0] == 0xFF;
      hide EncodeAll, Header, Encode, Scan;
      DerailedScan(b, init, table);
    }
  }

  lemma {:induction false} EncodeAllAppends(init: seq<HeaderSegment>, s: HeaderSegment)
    requires AllWellFormed(init) && WellFormed(s) && AllWellFormed(init + [s])
    ensures EncodeAll(init + [s]) == EncodeAll(init) + Encode(s)
    decreases |init|
  {
    hide Encode;
    if init == [] {
      assert (init + [s])[1..] == [];
      assert Encode(s) + [] == Encode(s);
    } else {
      assert (init + [s])[1..] == init[1..] + [s];
      EncodeAllAppends(init[1..], s);
    }
  }

  lemma {:induction false} AppSegmentsAppends(init: seq<HeaderSegment>, s: HeaderSegment, at: nat)
    requires !s.App?
    ensures AppSegments(init + [s], at) == AppSegments(init, at)
    decreases |init|
  {
    if init != [] {
      assert (init + [s])[1..] == init[1..] + [s];
      AppSegmentsAppends(init[1..], s, at + |init[0].data| + 4);
    }
  }
}
