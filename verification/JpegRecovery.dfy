/**
 How the marker scanner finds its place again: after a lone quantization table that ends in 0xFF it reads the next
 segment byte by byte, and if there is no other 0xFF in it, loses just that segment.
 */
module JpegRecovery {
  import opened Machine
  import opened JpegHeader
  import opened JpegHeaderProofs

  /** No 0xFF after the first byte of the segment. */
  ghost predicate Quiet(s: HeaderSegment)
    requires |s.data| <= 65533
  {
    forall k :: 0 < k < |s.data| + 4 ==> Encode(s)[k] != 0xFF
  }

  /** Every table that derails the scanner is followed by a segment in which it can recover. */
  ghost predicate Recovers(segs: seq<HeaderSegment>)
    requires AllWellFormed(segs)
    decreases |segs|
  {
    segs == [] ||
    if Derails(segs[0]) then |segs| > 1 && Quiet(segs[1]) && AllWellFormed(segs[2..]) && Recovers(segs[2..])
    else AllWellFormed(segs[1..]) && Recovers(segs[1..])
  }

  /** The segments that are recorded: an application segment right after such a table is not among them. */
  ghost function Recorded(segs: seq<HeaderSegment>, at: nat): seq<Segment>
    decreases |segs|
  {
    if segs == [] then []
    else if Derails(segs[0]) && |segs| > 1 then Recorded(segs[2..], at + |segs[0].data| + 4 + |segs[1].data| + 4)
    else
      (if segs[0].App? then [Segment(at, |segs[0].data| + 4)] else []) +
      Recorded(segs[1..], at + |segs[0].data| + 4)
  }

  lemma QuietBytes(b: seq<Byte>, j: nat, s: HeaderSegment)
    requires |s.data| <= 65533 && Quiet(s)
    requires j + |s.data| + 4 <= |b| && b[j..j + |s.data| + 4] == Encode(s)
    ensures b[j] == 0xFF && forall k :: j + 1 <= k < j + |s.data| + 4 ==> b[k] != 0xFF
  {
    var e := Encode(s);
    forall k | j <= k < j + |s.data| + 4
      ensures b[k] == e[k - j]
    {
      assert b[j..j + |s.data| + 4][k - j] == b[k];
    }
  }

  /** A derailing table and the segment after it are passed over together, and neither is recorded. */
  lemma SwallowedSegment(b: seq<Byte>, i: nat, table: HeaderSegment, s: HeaderSegment, apps: seq<Segment>)
    requires WellFormed(table) && Derails(table) && WellFormed(s) && Quiet(s) && |apps| <= TABLE_SIZE
    requires i + 69 + |s.data| + 4 <= |b|
    requires b[i..i + 69] == Encode(table) && b[i + 69..i + 69 + |s.data| + 4] == Encode(s)
    ensures Scan(b, i, apps) == Scan(b, i + 69 + |s.data| + 4, apps)
  {
    assert |table.data| == 65 && table.data[64] == 0xFF && table.Dqt? && |s.data| <= 65533;
    assert apps + [] == apps;
    hide *;
    QuietBytes(b, i + 69, s);
    StepIntoTable(b, i, table);
    StepOverDoubleMarker(b, i + 68);
    ScanTurn(b, i, apps);
    ScanTurn(b, i + 68, apps);
    ScanOverQuietBytes(b, i + 70, i + 69 + |s.data| + 4, apps);
  }

  lemma RecordedTurn(segs: seq<HeaderSegment>, i: nat, apps: seq<Segment>)
    requires segs != [] && !Derails(segs[0])
    ensures var s := segs[0];
            var here := apps + if s.App? then [Segment(i, |s.data| + 4)] else [];
            var all := apps + Recorded(segs, i);
            all == here + Recorded(segs[1..], i + |s.data| + 4) && |here| <= |all|
  {
    var s := segs[0];
    var here := if s.App? then [Segment(i, |s.data| + 4)] else [];
    var later := Recorded(segs[1..], i + |s.data| + 4);
    assert Recorded(segs, i) == here + later;
    hide *;
    Associative(apps, here, later);
  }

  lemma RecordedSwallow(segs: seq<HeaderSegment>, i: nat)
    requires AllWellFormed(segs) && segs != [] && Derails(segs[0]) && Recovers(segs)
    ensures |segs| > 1 && |segs[0].data| == 65 && WellFormed(segs[0]) && WellFormed(segs[1]) && Quiet(segs[1])
    ensures AllWellFormed(segs[2..]) && Recovers(segs[2..]) && segs[1..][1..] == segs[2..]
    ensures Recorded(segs, i) == Recorded(segs[2..], i + 69 + |segs[1].data| + 4)
  {
    hide WellFormed, Quiet;
    assert WellFormed(segs[0]) && WellFormed(segs[1]);
  }

  lemma RecoversTurn(segs: seq<HeaderSegment>)
    requires AllWellFormed(segs) && segs != [] && !Derails(segs[0]) && Recovers(segs)
    ensures AllWellFormed(segs[1..]) && Recovers(segs[1..])
  {
  }

  /** The scanner's way through a list of segments in which it recovers whenever it derails. */
  lemma {:induction false} ScanRecovering(b: seq<Byte>, i: nat, segs: seq<HeaderSegment>, apps: seq<Segment>)
    requires AllWellFormed(segs) && Recovers(segs) && |apps| <= TABLE_SIZE
    requires i + |EncodeAll(segs)| <= |b| && b[i..i + |EncodeAll(segs)|] == EncodeAll(segs)
    ensures var all := apps + Recorded(segs, i);
            if |all| <= TABLE_SIZE then Scan(b, i, apps) == Scan(b, i + |EncodeAll(segs)|, all)
            else Scan(b, i, apps).outcome.TableFull?
    decreases |segs|
  {
    hide *;
    if segs == [] {
      NothingRecorded(i, apps);
    } else {
      SplitSegments(b, i, segs);
      var s := segs[0];
      var j := i + |s.data| + 4;
      if Derails(s) {
        RecordedSwallow(segs, i);
        SplitSegments(b, j, segs[1..]);
        SwallowedSegment(b, i, s, segs[1], apps);
        ScanRecovering(b, j + |segs[1].data| + 4, segs[2..], apps);
      } else {
        var here := apps + if s.App? then [Segment(i, |s.data| + 4)] else [];
        RecoversTurn(segs);
        RecordedTurn(segs, i, apps);
        ScanOverSegment(b, i, s, apps);
        if |here| <= TABLE_SIZE {
          ScanRecovering(b, j, segs[1..], here);
        }
      }
    }
  }

  lemma NothingRecorded(i: nat, apps: seq<Segment>)
    ensures apps + Recorded([], i) == apps && |EncodeAll([])| == 0
  {
  }

  /**
   The size is found in every header in which each derailing table is followed by a quiet segment; those quiet segments
   go unrecorded, and all other application segments are recorded.
   */
  lemma ScanRecoveringHeader(segs: seq<HeaderSegment>, length: nat, precision: Byte, height: nat, width: nat,
                             rest: seq<Byte>)
    requires AllWellFormed(segs) && length < 0x10000 && height < 0x10000 && width < 0x10000
    requires Recovers(segs)
    ensures var r := Scan(Header(segs, length, precision, height, width, rest), 0, []);
            if |Recorded(segs, 2)| <= TABLE_SIZE then r == Scanned(Size(height, width), Recorded(segs, 2))
            else r.outcome == TableFull
  {
    var b := Header(segs, length, precision, height, width, rest);
    HeaderParts(segs, length, precision, height, width, rest);
    assert Step(b, 0) == Next(2, []);
    hide Step, Header, EncodeAll, Recorded, Recovers;
    ScanTurn(b, 0, []);
    ScanRecovering(b, 2, segs, []);
    assert [] + Recorded(segs, 2) == Recorded(segs, 2);
    StepAtFrame(b, 2 + |EncodeAll(segs)|, length, precision, height, width);
  }

  /** Where nothing derails, all application segments are recorded. */
  lemma {:induction false} NoneDerailsRecovers(segs: seq<HeaderSegment>, at: nat)
    requires AllWellFormed(segs) && NoneDerails(segs)
    ensures Recovers(segs) && Recorded(segs, at) == AppSegments(segs, at)
    decreases |segs|
  {
    hide WellFormed;
    if segs != [] {
      NoneDerailsSplits(segs);
      NoneDerailsRecovers(segs[1..], at + |segs[0].data| + 4);
    }
  }

  /** An application segment that follows a derailing table goes unrecorded, although the size is found. */
  lemma SwallowedApplication(table: HeaderSegment, app: HeaderSegment, length: nat, precision: Byte, height: nat,
                             width: nat)
    requires WellFormed(table) && Derails(table) && WellFormed(app) && app.App? && Quiet(app)
    requires length < 0x10000 && height < 0x10000 && width < 0x10000
    ensures AllWellFormed([table, app])
    ensures Scan(Header([table, app], length, precision, height, width, []), 0, []) == Scanned(Size(height, width), [])
  {
    var segs := [table, app];
    assert segs[2..] == [];
    hide WellFormed, Quiet, Derails;
    assert AllWellFormed(segs) && AllWellFormed(segs[2..]);
    assert Recovers(segs) && Recorded(segs, 2) == [];
    hide Recovers, Recorded, Scan, Header;
    ScanRecoveringHeader(segs, length, precision, height, width, []);
  }
}
