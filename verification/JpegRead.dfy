/**
 Reading a JPEG file piece by piece while looking for its size: the header is scanned again after every
 piece until the scan succeeds.
 */
module JpegRead {
  import opened Machine
  import opened JpegHeader
  import opened JpegHeaderProofs

  const READ_SIZE := 4096

  /** The pieces in the order read. */
  function Joined(pieces: seq<seq<Byte>>): seq<Byte> {
    if pieces == [] then [] else Joined(pieces[..|pieces| - 1]) + pieces[|pieces| - 1]
  }

  /** fread to the end of what has been read so far. */
  method Append(buffer: array<Byte>, count: nat, piece: seq<Byte>)
    requires count + |piece| <= buffer.Length
    modifies buffer
    ensures buffer[..count + |piece|] == old(buffer[..count]) + piece
    ensures buffer[count + |piece|..] == old(buffer[count + |piece|..])
  {
    for i := 0 to |piece|
      invariant buffer[..count + i] == old(buffer[..count]) + piece[..i]
      invariant buffer[count + |piece|..] == old(buffer[count + |piece|..])
    {
      buffer[count + i] := piece[i];
    }
  }

  /**
   Reads the pieces of a file behind each other.  Scanning again after each piece, and not any more after the
   first success, finds what one scan of the whole file finds: the size if there is one, and in any case the
   recorded segments.
   */
  method ReadBitstream(parser: Parser, buffer: array<Byte>, pieces: seq<seq<Byte>>, srcBufsize: nat)
    returns (tooLarge: bool, found: bool, height: nat, width: nat, count: nat)
    requires parser.Valid() && buffer as object !in {parser.appOffset, parser.appSize}
    requires forall k :: 0 <= k < |pieces| ==> |pieces[k]| <= READ_SIZE
    requires srcBufsize + READ_SIZE < buffer.Length
    modifies parser, parser.appOffset, parser.appSize, buffer
    ensures tooLarge <==> |Joined(pieces)| > srcBufsize
    ensures !tooLarge ==>
              var whole := Joined(pieces);
              var scanned := Scan(whole, 0, []);
              && count == |whole| <= buffer.Length && buffer[..count] == whole && buffer[count..]
                 == old(buffer[count..])
              && (found <==> scanned.outcome.Size?)
              && (found ==> scanned.outcome == Size(height, width))
              && (pieces != [] ==> parser.Holds(scanned.apps))
  {
    tooLarge, found, height, width, count := false, false, 0, 0, 0;
    EmptyScan();
    ghost var was := buffer[..];
    hide *;
    var i := 0;
    while i < |pieces|
      invariant 0 <= i <= |pieces| && count <= srcBufsize && parser.Valid()
      invariant buffer[..count] == Joined(pieces[..i]) && buffer[count..] == was[count..]
      invariant IsFound(buffer[..count], found, height, width)
      invariant i > 0 ==> parser.Holds(Scan(buffer[..count], 0, []).apps)
    {
      SameTail(buffer[..], was, count, count + |pieces[i]|);
      found, height, width := ReadPiece(parser, buffer, pieces[i], count, found, height, width);
      count := count + |pieces[i]|;
      JoinedNext(pieces, i);
      i := i + 1;
      if count > srcBufsize {
        tooLarge := true;
        JoinedGrows(pieces, i);
        return;
      }
    }
    assert pieces[..|pieces|] == pieces;
    FoundMeans(buffer[..count], found, height, width);
  }

  /** What is known about the size agrees with the scan of what has been read. */
  ghost predicate IsFound(source: seq<Byte>, found: bool, height: nat, width: nat) {
    var r := Scan(source, 0, []).outcome;
    (found <==> r.Size?) && (found ==> r == Size(height, width))
  }

  lemma FoundMeans(source: seq<Byte>, found: bool, height: nat, width: nat)
    requires IsFound(source, found, height, width)
    ensures found <==> Scan(source, 0, []).outcome.Size?
    ensures found ==> Scan(source, 0, []).outcome == Size(height, width)
  {
  }

  lemma IsFoundBy(source: seq<Byte>, r: Outcome)
    requires r == Scan(source, 0, []).outcome
    ensures if r.Size? then IsFound(source, true, r.height, r.width) else IsFound(source, false, 0, 0)
    ensures !r.Size? ==> forall h: nat, w: nat :: IsFound(source, false, h, w)
  {
  }

  /** One piece: it is read, and the header is scanned again if that has not succeeded yet. */
  method ReadPiece(parser: Parser, buffer: array<Byte>, piece: seq<Byte>, count: nat, found: bool, height: nat,
                   width: nat)
    returns (newFound: bool, newHeight: nat, newWidth: nat)
    requires parser.Valid() && buffer as object !in {parser.appOffset, parser.appSize}
    requires count + |piece| < buffer.Length && IsFound(buffer[..count], found, height, width)
    requires found ==> parser.Holds(Scan(buffer[..count], 0, []).apps)
    modifies parser, parser.appOffset, parser.appSize, buffer
    ensures buffer[..count + |piece|] == old(buffer[..count]) + piece
    ensures buffer[count + |piece|..] == old(buffer[count + |piece|..])
    ensures IsFound(buffer[..count + |piece|], newFound, newHeight, newWidth)
    ensures parser.Valid() && parser.Holds(Scan(buffer[..count + |piece|], 0, []).apps)
  {
    EmptyScan();
    hide *;
    newFound, newHeight, newWidth := found, height, width;
    ghost var before := buffer[..count];
    Append(buffer, count, piece);
    ghost var all := buffer[..];
    ghost var now := buffer[..count + |piece|];
    if !newFound {
      var r := parser.ParsingJpeg(buffer, count + |piece|);
      assert count + |piece| == 0 ==> now == [];
      assert buffer[..] == all;
      IsFoundBy(now, r);
      if r.Size? {
        newHeight, newWidth, newFound := r.height, r.width, true;
      }
    } else {
      FoundMeans(before, found, height, width);
      ScanIsStable(before, piece, 0, []);
      IsFoundBy(now, Scan(now, 0, []).outcome);
    }
    HoldsValid(parser, Scan(now, 0, []).apps);
  }

  lemma EmptyScan()
    ensures Joined([]) == [] && Scan([], 0, []) == Scanned(Rejected, [])
  {
  }

  lemma SameTail(x: seq<Byte>, y: seq<Byte>, i: nat, j: nat)
    requires |x| == |y| && i <= j <= |x| && x[i..] == y[i..]
    ensures x[j..] == y[j..]
  {
    assert x[j..] == x[i..][j - i..];
  }

  lemma HoldsValid(parser: Parser, apps: seq<Segment>)
    requires parser.Holds(apps)
    ensures parser.Valid()
  {
  }

  lemma JoinedNext(pieces: seq<seq<Byte>>, i: nat)
    requires i < |pieces|
    ensures Joined(pieces[..i + 1]) == Joined(pieces[..i]) + pieces[i]
  {
    assert pieces[..i + 1][..i] == pieces[..i];
  }

  lemma {:induction false} JoinedGrows(pieces: seq<seq<Byte>>, k: nat)
    requires k <= |pieces|
    ensures |Joined(pieces[..k])| <= |Joined(pieces)|
    decreases |pieces|
  {
    if k == |pieces| {
      assert pieces[..k] == pieces;
    } else {
      assert pieces[..|pieces| - 1][..k] == pieces[..k];
      JoinedGrows(pieces[..|pieces| - 1], k);
    }
  }
}
