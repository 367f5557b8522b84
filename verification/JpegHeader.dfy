/**
 The JPEG marker scanner: where it goes, what it records, and which headers it reads right
 (marker codes and segment layout as in sections B.1.1.4 and B.2.2 of ITU-T T.81).
 */
module JpegHeader {
  import opened Machine

  /** An application or comment segment, from its 0xFF on. */
  datatype Segment = Segment(offset: nat, size: nat)

  /** What the scanner does at one position: `apps` is the segment it records, if any. */
  datatype Move =
    | Next(index: nat, apps: seq<Segment>)
    | Found(height: nat, width: nat)
    | Fail(apps: seq<Segment>)

  const TABLE_SIZE := 10

  predicate IsOtherFrame(marker: Byte) {
    0xC1 <= marker <= 0xCF && marker != 0xC4 && marker != 0xCC
  }

  predicate IsApplication(marker: Byte) {
    0xE0 <= marker <= 0xEF || marker == 0xFE
  }

  function Word16(hi: Byte, lo: Byte): (n: nat)
    ensures n < 0x10000
  {
    hi * 256 + lo
  }

  /** A 16-bit length field less 2, which wraps. */
  function LessTwo(length: nat): (n: nat)
    requires length < 0x10000
  {
    (length + 0x10000 - 2) % 0x10000
  }

  /** Skips to index k if the buffer reaches that far. */
  function SkipTo(b: seq<Byte>, k: nat, apps: seq<Segment>): Move {
    if k > |b| then Fail(apps) else Next(k, apps)
  }

  /** What happens at the marker whose 0xFF is at index i. */
  function AtMarker(b: seq<Byte>, i: nat): (m: Move)
    requires i + 1 < |b|
    ensures m.Next? ==> i < m.index <= |b|
  {
    var marker, j := b[i + 1], i + 2;
    if IsOtherFrame(marker) then Fail([])
    else if marker == 0xDB then
      if j + 2 > |b| then Fail([])
      else
        var m := LessTwo(Word16(b[j], b[j + 1]));
        if m == 65 then SkipTo(b, j + 2 + 64, [])
        else if m % 65 != 0 then Fail([])
        else SkipTo(b, j + 2 + m, [])
    else if marker == 0xC0 then
      if j + 7 > |b| then Fail([])
      else Found(Word16(b[j + 3], b[j + 4]), Word16(b[j + 5], b[j + 6]))
    else if marker == 0xDA || marker == 0xC4 then
      if j + 2 > |b| then Fail([]) else SkipTo(b, j + Word16(b[j], b[j + 1]), [])
    else if IsApplication(marker) then
      if j + 2 > |b| then Fail([])
      else
        var n := Word16(b[j], b[j + 1]);
        SkipTo(b, j + n, [Segment(i, n + 2)])
    else Next(j, [])
  }

  /** One turn of the scanning loop at index i of the bytes read so far. */
  function Step(b: seq<Byte>, i: nat): (m: Move)
    requires i < |b|
    ensures m.Next? ==> i < m.index <= |b|
  {
    if b[i] != 0xFF then Next(i + 1, [])
    else if i + 1 == |b| then Fail([])
    else AtMarker(b, i)
  }

  /** TableFull: an eleventh segment turns up, for which the program's table has no place. */
  datatype Outcome = Size(height: nat, width: nat) | Rejected | TableFull

  datatype Scanned = Scanned(outcome: Outcome, apps: seq<Segment>)

  /** The scan from index i, with the segments recorded so far. */
  function Scan(b: seq<Byte>, i: nat, apps: seq<Segment>): Scanned
    requires i <= |b|
    decreases |b| - i
  {
    if i == |b| then Scanned(Rejected, apps)
    else
      var m := Step(b, i);
      if m.Found? then Scanned(Size(m.height, m.width), apps)
      else if |apps + m.apps| > TABLE_SIZE then Scanned(TableFull, apps)
      else if m.Fail? then Scanned(Rejected, apps + m.apps)
      else Scan(b, m.index, apps + m.apps)
  }

  // The scanner.

  class Parser {
    const appOffset: array<int>
    const appSize: array<int>
    var appNum: nat

    ghost predicate Valid()
      reads this
    {
      appOffset.Length == TABLE_SIZE && appSize.Length == TABLE_SIZE && appOffset != appSize
    }

    /** The tables hold exactly these segments, in order. */
    ghost predicate Holds(apps: seq<Segment>)
      reads this, appOffset, appSize
    {
      && Valid()
      && appNum == |apps| <= TABLE_SIZE
      && forall k :: 0 <= k < |apps| ==> appOffset[k] == apps[k].offset && appSize[k] == apps[k].size
    }

    constructor ()
      ensures Valid() && fresh(appOffset) && fresh(appSize)
    {
      appOffset := new int[TABLE_SIZE];
      appSize := new int[TABLE_SIZE];
      appNum := 0;
    }

    lemma HoldsCount(apps: seq<Segment>)
      requires Holds(apps)
      ensures Valid() && appNum == |apps| <= TABLE_SIZE
    {
    }

    /** Enters a segment in the tables. */
    method Record(offset: nat, size: nat, ghost apps: seq<Segment>)
      requires Holds(apps) && |apps| < TABLE_SIZE
      modifies this, appOffset, appSize
      ensures Holds(apps + [Segment(offset, size)])
    {
      appOffset[appNum] := offset;
      appSize[appNum] := size;
      appNum := appNum + 1;
    }

    /** Enters the segment found at a marker, if there is one and the tables have a place for it. */
    method RecordAll(found: seq<Segment>, ghost apps: seq<Segment>) returns (full: bool)
      requires Holds(apps) && |found| <= 1
      modifies this, appOffset, appSize
      ensures full <==> |apps + found| > TABLE_SIZE
      ensures Holds(if full then apps else apps + found)
    {
      full := false;
      assert found == [] ==> apps + found == apps;
      if found != [] {
        if appNum >= TABLE_SIZE {
          return true;
        }
        Record(found[0].offset, found[0].size, apps);
      }
    }

    /**
     Scans the first `length` bytes of the buffer.  The only byte read beyond them is a marker
     code right after a final 0xFF, so only then must the buffer be longer than `length`.
     */
    method ParsingJpeg(buffer: array<Byte>, length: int) returns (r: Outcome)
      requires Valid() && length <= buffer.Length
      requires 0 < length == buffer.Length ==> buffer[length - 1] != 0xFF
      modifies this, appOffset, appSize
      ensures length <= 0 ==> r == Rejected && Holds([])
      ensures length > 0 ==>
                var scanned := Scan(buffer[..length], 0, []);
                r == scanned.outcome && Holds(scanned.apps)
    {
      appNum := 0;
      var index := 0;
      if length <= 0 {
        return Rejected;
      }
      ghost var b := buffer[..length];
      ghost var apps: seq<Segment> := [];
      hide Step, Scan, Holds, AtMarker, Valid;
      while index < length
        invariant 0 <= index <= length + 1
        invariant Valid() && buffer[..length] == b && Holds(apps) && |apps| <= TABLE_SIZE
        invariant index <= length ==> Scan(b, 0, []) == Scan(b, index, apps)
        invariant index == length + 1 ==> Scan(b, 0, []) == Scanned(Rejected, apps)
        decreases length - index
      {
        Turn(b, index, apps);
        HoldsCount(apps);
        if buffer[index] != 0xFF {
          index := index + 1;
        } else {
          var move := AtMarkerByte(buffer, length, index);
          if move.Found? {
            return Size(move.height, move.width);
          }
          var full := RecordAll(move.apps, apps);
          if full {
            return TableFull;
          }
          apps := apps + move.apps;
          if move.Fail? {
            return Rejected;
          }
          index := move.index;
        }
      }
      return Rejected;
    }
  }

  /** The switch on the marker code after the 0xFF at index `at`. */
  method AtMarkerByte(buffer: array<Byte>, length: nat, at: nat) returns (m: Move)
    requires at < length <= buffer.Length && at + 1 < buffer.Length && buffer[at] == 0xFF
    ensures at + 1 < length ==> m == AtMarker(buffer[..length], at)
    ensures at + 1 == length ==> m == Fail([]) || m == Next(length + 1, [])
    ensures !m.Found? ==> |m.apps| <= 1
  {
    hide Word16, LessTwo;
    var lByte := buffer[at + 1];
    var index := at + 2;
    var apps: seq<Segment> := [];
    if lByte == 0xD8 {
      // start of image
    } else if IsOtherFrame(lByte) {
      return Fail([]);
    } else if lByte == 0xDB {
      if index + 2 > length {
        return Fail([]);
      }
      var mLength := LessTwo(Word16(buffer[index], buffer[index + 1]));
      index := index + 2;
      if mLength != 65 {
        if mLength % 65 != 0 {
          return Fail([]);
        }
        index := index + mLength;
      } else {
        index := index + 64;
      }
    } else if lByte == 0xC0 {
      if index + 7 > length {
        return Fail([]);
      }
      return Found(Word16(buffer[index + 3], buffer[index + 4]), Word16(buffer[index + 5], buffer[index + 6]));
    } else if lByte == 0xDA || lByte == 0xC4 {
      if index + 2 > length {
        return Fail([]);
      }
      var mLength := Word16(buffer[index], buffer[index + 1]);
      index := index + 2;
      index := index + mLength - 2;
    } else if IsApplication(lByte) {
      if index + 2 > length {
        return Fail([]);
      }
      var mLength := Word16(buffer[index], buffer[index + 1]);
      index := index + 2;
      apps := [Segment(index - 4, mLength + 2)];
      index := index + mLength - 2;
    }
    return if at + 1 < length && index > length then Fail(apps) else Next(index, apps);
  }

  /** One turn of the loop, in terms of the scan it is part of. */
  lemma Turn(b: seq<Byte>, i: nat, apps: seq<Segment>)
    requires i < |b| && |apps| <= TABLE_SIZE
    ensures b[i] != 0xFF ==> Scan(b, i, apps) == Scan(b, i + 1, apps)
    ensures b[i] == 0xFF && i + 1 == |b| ==> Scan(b, i, apps) == Scanned(Rejected, apps)
    ensures b[i] == 0xFF && i + 1 < |b| ==>
              var m := AtMarker(b, i);
              && (m.Found? ==> Scan(b, i, apps) == Scanned(Size(m.height, m.width), apps))
              && (m.Fail? && |apps + m.apps| <= TABLE_SIZE ==> Scan(b, i, apps) == Scanned(Rejected, apps + m.apps))
              && (m.Next? && |apps + m.apps| <= TABLE_SIZE ==> Scan(b, i, apps) == Scan(b, m.index, apps + m.apps))
              && (!m.Found? && |apps + m.apps| > TABLE_SIZE ==> Scan(b, i, apps) == Scanned(TableFull, apps))
              && apps + [] == apps
  {
  }
}
