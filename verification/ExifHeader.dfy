/**
 The minimal Exif header: a writer with running offsets and a backpatched link, and an independent
 reader that walks image file directories (section 2 of the TIFF 6.0 specification).
 */
module ExifHeader {
  import opened Machine

  const EXIF_SIZE := 0x84

  const TAG_DATETIME := 0x0132
  const TAG_EXIF_OFFSET := 0x8769
  const TAG_DATETIME_ORIGINAL := 0x9003
  const TAG_THUMBNAIL_OFFSET := 0x0201
  const TAG_THUMBNAIL_LENGTH := 0x0202
  const FMT_STRING := 2
  const FMT_ULONG := 4

  // Numbers in a file, in either byte order.

  function Bytes16(motorola: bool, v: int): (b: seq<Byte>)
    requires 0 <= v < 0x10000
    ensures |b| == 2
  {
    if motorola then [v / 256, v % 256] else [v % 256, v / 256]
  }

  function Bytes32(motorola: bool, v: int): (b: seq<Byte>)
    requires 0 <= v < TWO_TO_THE_32
    ensures |b| == 4
  {
    var v8 := v / 256;
    var v16 := v8 / 256;
    if motorola then [v16 / 256, v16 % 256, v8 % 256, v % 256] else [v % 256, v8 % 256, v16 % 256, v16 / 256]
  }

  /** Four bytes, the most significant one first and possibly negative. */
  function Combine(top: int, b2: int, b1: int, b0: int): int {
    ((top * 256 + b2) * 256 + b1) * 256 + b0
  }

  function Get16u(motorola: bool, b: seq<Byte>, at: nat): (v: int)
    requires at + 2 <= |b|
    ensures 0 <= v < 0x10000
  {
    var b0: int, b1: int := b[at], b[at + 1];
    if motorola then b0 * 256 + b1 else b1 * 256 + b0
  }

  /** Four bytes as a signed number: the first or the last byte carries the sign. */
  function Get32s(motorola: bool, b: seq<Byte>, at: nat): (v: int)
    requires at + 4 <= |b|
    ensures -0x8000_0000 <= v < 0x8000_0000
  {
    var top: int := if motorola then b[at] else b[at + 3];
    var signed := if top >= 128 then top - 256 else top;
    if motorola then Combine(signed, b[at + 1], b[at + 2], b[at + 3]) else Combine(signed, b[at + 2], b[at + 1], b[at])
  }

  function Get32u(motorola: bool, b: seq<Byte>, at: nat): (v: int)
    requires at + 4 <= |b|
    ensures 0 <= v < TWO_TO_THE_32
  {
    Get32s(motorola, b, at) % TWO_TO_THE_32
  }

  /** A 16-bit number read back from where it was put is the number, in both byte orders. */
  lemma Get16uOfPut(motorola: bool, b: seq<Byte>, at: nat, v: int)
    requires at + 2 <= |b| && 0 <= v < 0x10000 && b[at..at + 2] == Bytes16(motorola, v)
    ensures Get16u(motorola, b, at) == v
  {
  }

  /** The same for 32-bit numbers, unsigned and signed. */
  lemma Get32OfPut(motorola: bool, b: seq<Byte>, at: nat, v: int)
    requires at + 4 <= |b| && 0 <= v < TWO_TO_THE_32 && b[at..at + 4] == Bytes32(motorola, v)
    ensures Get32u(motorola, b, at) == v
    ensures Get32s(motorola, b, at) == if v >= 0x8000_0000 then v - TWO_TO_THE_32 else v
  {
    var s := Bytes32(motorola, v);
    assert b[at] == s[0] && b[at + 1] == s[1] && b[at + 2] == s[2] && b[at + 3] == s[3];
  }

  lemma Digits(b3: Byte, b2: Byte, b1: Byte, b0: Byte)
    ensures var v := Combine(b3, b2, b1, b0); var v8 := v / 256; var v16 := v8 / 256;
            0 <= v < TWO_TO_THE_32 && v % 256 == b0 && v8 % 256 == b1 && v16 % 256 == b2 && v16 / 256 == b3
  {
  }

  /** Putting what was read writes the same bytes back. */
  lemma PutOfGet16(motorola: bool, b: seq<Byte>, at: nat)
    requires at + 2 <= |b|
    ensures Bytes16(motorola, Get16u(motorola, b, at)) == b[at..at + 2]
  {
  }

  lemma PutOfGet32(motorola: bool, b: seq<Byte>, at: nat)
    requires at + 4 <= |b|
    ensures Bytes32(motorola, Get32u(motorola, b, at)) == b[at..at + 4]
  {
    var b0, b1, b2, b3 := b[at], b[at + 1], b[at + 2], b[at + 3];
    hide Combine;
    if motorola {
      SignFolds(b0, b1, b2, b3);
      Digits(b0, b1, b2, b3);
    } else {
      SignFolds(b3, b2, b1, b0);
      Digits(b3, b2, b1, b0);
    }
  }

  lemma SignFolds(top: Byte, b2: Byte, b1: Byte, b0: Byte)
    ensures Combine(if top >= 128 then top as int - 256 else top, b2, b1, b0) % TWO_TO_THE_32
            == Combine(top, b2, b1, b0)
  {
  }

  // Writing into a buffer.

  /** b with the bytes x put at index `at`. */
  function Patch(b: seq<Byte>, at: nat, x: seq<Byte>): (r: seq<Byte>)
    requires at + |x| <= |b|
    ensures |r| == |b|
  {
    b[..at] + x + b[at + |x|..]
  }

  lemma PatchIs(b: seq<Byte>, at: nat, x: seq<Byte>, after: seq<Byte>)
    requires at + |x| <= |b| && |after| == |b|
    requires forall j :: 0 <= j < |b| ==> after[j] == if at <= j < at + |x| then x[j - at] else b[j]
    ensures after == Patch(b, at, x)
  {
  }

  lemma PatchesJoin(b: seq<Byte>, at: nat, x: seq<Byte>, y: seq<Byte>)
    requires at + |x| + |y| <= |b|
    ensures Patch(Patch(b, at, x), at + |x|, y) == Patch(b, at, x + y)
  {
  }

  lemma PatchesSwap(b: seq<Byte>, at: nat, x: seq<Byte>, to: nat, y: seq<Byte>)
    requires at + |x| <= to && to + |y| <= |b|
    ensures Patch(Patch(b, at, x), to, y) == Patch(Patch(b, to, y), at, x)
  {
  }

  /** What lies before a patch stays. */
  lemma PatchBehind(b: seq<Byte>, at: nat, x: seq<Byte>, i: nat, j: nat)
    requires i <= j <= at && at + |x| <= |b|
    ensures Patch(b, at, x)[i..j] == b[i..j]
  {
  }

  lemma ExifPatches(b: seq<Byte>, start: nat, entries: seq<Byte>, next: seq<Byte>, date: seq<Byte>)
    requires |entries| == 14 && |next| == 4 && start + 18 + |date| <= |b|
    ensures Patch(Patch(Patch(b, start, entries), start + 18, date), start + 14, next)
            == Patch(b, start, entries + next + date)
  {
    hide *;
    PatchesSwap(Patch(b, start, entries), start + 14, next, start + 18, date);
    PatchesJoin(b, start, entries, next);
    PatchesJoin(b, start, entries + next, date);
  }

  /** A directory entry. */
  datatype Entry = Entry(tag: int, format: int, components: int, value: int) {
    predicate Fits() {
      0 <= tag < 0x10000 && 0 <= format < 0x10000 && 0 <= components < TWO_TO_THE_32 && 0 <= value < TWO_TO_THE_32
    }
  }

  function EntryBytes(motorola: bool, e: Entry): (b: seq<Byte>)
    requires e.Fits()
    ensures |b| == 12
  {
    Bytes16(motorola, e.tag) + Bytes16(motorola, e.format) + Bytes32(motorola, e.components)
      + Bytes32(motorola, e.value)
  }

  const SIGNATURE: seq<Byte> := [0x45, 0x78, 0x69, 0x66, 0, 0, 0x49, 0x49]

  /** An int parameter that is stored as an unsigned number. */
  function Unsigned(v: int): (u: int)
    ensures 0 <= u < TWO_TO_THE_32
  {
    v % TWO_TO_THE_32
  }

  // The parts of the header.

  function HeaderPart(): (b: seq<Byte>)
    ensures |b| == 14
  {
    SIGNATURE + Bytes16(false, 0x2A) + Bytes32(false, 8)
  }

  /** The date and the link of an IFD0 at index start, pointing behind the directory and behind the date. */
  function MainEntries(start: nat): (b: seq<Byte>)
    requires start < 0x8000_0000
    ensures |b| == 26
  {
    Bytes16(false, 2) + EntryBytes(false, Entry(TAG_DATETIME, FMT_STRING, 20, start + 24)) +
    EntryBytes(false, Entry(TAG_EXIF_OFFSET, FMT_ULONG, 1, start + 44))
  }

  /** The original date of an Exif directory at index start, pointing behind the directory. */
  function ExifEntries(start: nat): (b: seq<Byte>)
    requires start < 0x8000_0000
    ensures |b| == 18
  {
    Bytes16(false, 1) + EntryBytes(false, Entry(TAG_DATETIME_ORIGINAL, FMT_STRING, 20, start + 12)) + Bytes32(false, 0)
  }

  function ThumbnailEntries(offset: int, size: int): (b: seq<Byte>)
    ensures |b| == 30
  {
    Bytes16(false, 2) + EntryBytes(false, Entry(TAG_THUMBNAIL_OFFSET, FMT_ULONG, 1, Unsigned(offset))) +
    EntryBytes(false, Entry(TAG_THUMBNAIL_LENGTH, FMT_ULONG, 1, Unsigned(size))) + Bytes32(false, 0)
  }

  /** The whole header: nothing of the buffer's former content is left in it. */
  function ExifBytes(date: seq<Byte>, offset: int, size: int): (b: seq<Byte>)
    requires |date| == 19
    ensures |b| == EXIF_SIZE
  {
    HeaderPart() + MainEntries(14) + Bytes32(false, 96) + (date + [0] + ExifEntries(64) + date + [0]) +
    ThumbnailEntries(offset, size)
  }

  class Writer {
    var motorolaOrder: bool

    method Put16u(buffer: array<Byte>, at: nat, v: int)
      requires at + 2 <= buffer.Length && 0 <= v < 0x10000
      modifies buffer
      ensures buffer[..] == Patch(old(buffer[..]), at, Bytes16(motorolaOrder, v))
    {
      if motorolaOrder {
        buffer[at] := v / 256;
        buffer[at + 1] := v % 256;
      } else {
        buffer[at] := v % 256;
        buffer[at + 1] := v / 256;
      }
    }

    method Put32u(buffer: array<Byte>, at: nat, v: int)
      requires at + 4 <= buffer.Length && 0 <= v < TWO_TO_THE_32
      modifies buffer
      ensures buffer[..] == Patch(old(buffer[..]), at, Bytes32(motorolaOrder, v))
    {
      var b := Bytes32(motorolaOrder, v);
      hide Bytes32;
      buffer[at] := b[0];
      buffer[at + 1] := b[1];
      buffer[at + 2] := b[2];
      buffer[at + 3] := b[3];
    }

    method PutBytes(buffer: array<Byte>, at: nat, x: seq<Byte>)
      requires at + |x| <= buffer.Length
      modifies buffer
      ensures buffer[..] == Patch(old(buffer[..]), at, x)
    {
      hide Patch;
      ghost var b := buffer[..];
      for i := 0 to |x|
        invariant forall j :: 0 <= j < |b| ==> buffer[j] == if at <= j < at + i then x[j - at] else b[j]
      {
        buffer[at + i] := x[i];
      }
      PatchIs(b, at, x, buffer[..]);
    }

    method PutEntry(buffer: array<Byte>, at: nat, e: Entry)
      requires at + 12 <= buffer.Length && e.Fits()
      modifies buffer
      ensures buffer[..] == Patch(old(buffer[..]), at, EntryBytes(motorolaOrder, e))
    {
      hide Patch, Bytes16, Bytes32;
      ghost var b := buffer[..];
      ghost var tag, format := Bytes16(motorolaOrder, e.tag), Bytes16(motorolaOrder, e.format);
      ghost var components, value := Bytes32(motorolaOrder, e.components), Bytes32(motorolaOrder, e.value);
      Put16u(buffer, at, e.tag);
      Put16u(buffer, at + 2, e.format);
      PatchesJoin(b, at, tag, format);
      Put32u(buffer, at + 4, e.components);
      PatchesJoin(b, at, tag + format, components);
      Put32u(buffer, at + 8, e.value);
      PatchesJoin(b, at, tag + format + components, value);
    }

    /**
     IFD0 at any index: the date and the link to the Exif directory.  The link to the next directory is left for
     later.
     */
    method PutMain(buffer: array<Byte>, start: nat, date: seq<Byte>)
      returns (dataWriteIndex: nat, dateIndex: nat, dirContinuation: nat)
      requires start < 0x8000_0000 && start + 50 <= buffer.Length && |date| == 19 && !motorolaOrder
      modifies buffer
      ensures dataWriteIndex == start + 50 && dateIndex == start + 30 && dirContinuation == start + 26
      ensures buffer[..] == Patch(Patch(old(buffer[..]), start, MainEntries(start)), start + 30, date + [0])
    {
      ghost var dateEntry := Entry(TAG_DATETIME, FMT_STRING, 20, start + 24);
      ghost var linkEntry := Entry(TAG_EXIF_OFFSET, FMT_ULONG, 1, start + 44);
      assert dateEntry.Fits() && linkEntry.Fits();
      ghost var count, first, second := Bytes16(false, 2), EntryBytes(false, dateEntry), EntryBytes(false, linkEntry);
      assert MainEntries(start) == count + first + second;
      hide *;
      ghost var b := buffer[..];
      var dirIndex := start;
      var numEntries := 2;
      dataWriteIndex := start + 2 + numEntries * 12 + 4;
      Put16u(buffer, dirIndex, numEntries);
      dirIndex := dirIndex + 2;
      PutEntry(buffer, dirIndex, Entry(TAG_DATETIME, FMT_STRING, 20, dataWriteIndex - 6));
      dirIndex := dirIndex + 12;
      PatchesJoin(b, start, count, first);
      dateIndex := dataWriteIndex;
      PutBytes(buffer, dataWriteIndex, date);
      PutBytes(buffer, dataWriteIndex + 19, [0]);
      PatchesJoin(Patch(b, start, count + first), start + 30, date, [0]);
      dataWriteIndex := dataWriteIndex + 20;
      PutEntry(buffer, dirIndex, Entry(TAG_EXIF_OFFSET, FMT_ULONG, 1, dataWriteIndex - 6));
      dirIndex := dirIndex + 12;
      PatchesSwap(Patch(b, start, count + first), start + 14, second, start + 30, date + [0]);
      PatchesJoin(b, start, count + first, second);
      dirContinuation := dirIndex;
    }

    /** The beginning of a directory. */
    method PutCountAndEntry(buffer: array<Byte>, at: nat, count: int, e: Entry)
      requires at + 14 <= buffer.Length && 0 <= count < 0x10000 && e.Fits()
      modifies buffer
      ensures buffer[..] == Patch(old(buffer[..]), at, Bytes16(motorolaOrder, count) + EntryBytes(motorolaOrder, e))
    {
      hide *;
      ghost var b := buffer[..];
      Put16u(buffer, at, count);
      PutEntry(buffer, at + 2, e);
      PatchesJoin(b, at, Bytes16(motorolaOrder, count), EntryBytes(motorolaOrder, e));
    }

    method CopyDate(buffer: array<Byte>, from: nat, to: nat, ghost date: seq<Byte>)
      requires from + 20 <= to && to + 20 <= buffer.Length && |date| == 19
      requires buffer[..][from..from + 20] == date + [0]
      modifies buffer
      ensures buffer[..] == Patch(old(buffer[..]), to, date + [0])
    {
      assert buffer[from..from + 20] == buffer[..][from..from + 20];
      PutBytes(buffer, to, buffer[from..from + 20]);
    }

    /** The rest of the Exif directory, whose entries stand at start: the date behind it, and no next directory. */
    method PutDateAndNext(buffer: array<Byte>, start: nat, dateIndex: nat, dirIndex: nat, dataWriteIndex: nat,
                          ghost b: seq<Byte>, ghost entries: seq<Byte>, ghost date: seq<Byte>)
      requires dirIndex == start + 14 && dataWriteIndex == start + 18 && start + 38 <= buffer.Length
      requires !motorolaOrder && |date| == 19 && |entries| == 14 && |b| == buffer.Length
      requires dateIndex + 20 <= start && b[dateIndex..dateIndex + 20] == date + [0]
      requires buffer[..] == Patch(b, start, entries)
      modifies buffer
      ensures buffer[..] == Patch(b, start, entries + Bytes32(false, 0) + (date + [0]))
    {
      assert 0 < TWO_TO_THE_32;
      hide *;
      PatchBehind(b, start, entries, dateIndex, dateIndex + 20);
      CopyDate(buffer, dateIndex, dataWriteIndex, date);
      Put32u(buffer, dirIndex, 0);
      ExifPatches(b, start, entries, Bytes32(false, 0), date + [0]);
    }

    /** The Exif directory at any index: the original date, copied from dateIndex, and no next directory. */
    method PutExif(buffer: array<Byte>, start: nat, dateIndex: nat, ghost date: seq<Byte>) returns (dataWriteIndex: nat)
      requires start < 0x8000_0000 && start + 38 <= buffer.Length && |date| == 19 && !motorolaOrder
      requires dateIndex + 20 <= start && buffer[..][dateIndex..dateIndex + 20] == date + [0]
      modifies buffer
      ensures dataWriteIndex == start + 38
      ensures buffer[..] == Patch(old(buffer[..]), start, ExifEntries(start) + (date + [0]))
    {
      ghost var dateEntry := Entry(TAG_DATETIME_ORIGINAL, FMT_STRING, 20, start + 12);
      ghost var entries := Bytes16(false, 1) + EntryBytes(false, dateEntry);
      assert dateEntry.Fits() && ExifEntries(start) == entries + Bytes32(false, 0);
      hide *;
      ghost var b := buffer[..];
      var dirIndex := start;
      var numEntries := 1;
      dataWriteIndex := start + 2 + numEntries * 12 + 4;
      PutCountAndEntry(buffer, dirIndex, numEntries, Entry(TAG_DATETIME_ORIGINAL, FMT_STRING, 20, dataWriteIndex - 6));
      dirIndex := dirIndex + 14;
      PutDateAndNext(buffer, start, dateIndex, dirIndex, dataWriteIndex, b, entries, date);
      dataWriteIndex := dataWriteIndex + 20;
    }

    /** IFD1 at any index: where the thumbnail is and how long it is. */
    method PutThumbnail(buffer: array<Byte>, start: nat, offset: int, size: int)
      requires start + 30 <= buffer.Length && !motorolaOrder
      modifies buffer
      ensures buffer[..] == Patch(old(buffer[..]), start, ThumbnailEntries(offset, size))
    {
      ghost var offsetEntry := Entry(TAG_THUMBNAIL_OFFSET, FMT_ULONG, 1, Unsigned(offset));
      ghost var sizeEntry := Entry(TAG_THUMBNAIL_LENGTH, FMT_ULONG, 1, Unsigned(size));
      assert offsetEntry.Fits() && sizeEntry.Fits();
      ghost var count, first, second := Bytes16(false, 2), EntryBytes(false, offsetEntry), EntryBytes(false, sizeEntry);
      ghost var next := Bytes32(false, 0);
      assert ThumbnailEntries(offset, size) == count + first + second + next;
      hide *;
      ghost var b := buffer[..];
      var dirIndex := start;
      var numEntries := 2;
      Put16u(buffer, dirIndex, numEntries);
      dirIndex := dirIndex + 2;
      PutEntry(buffer, dirIndex, Entry(TAG_THUMBNAIL_OFFSET, FMT_ULONG, 1, Unsigned(offset)));
      PatchesJoin(b, start, count, first);
      dirIndex := dirIndex + 12;
      PutEntry(buffer, dirIndex, Entry(TAG_THUMBNAIL_LENGTH, FMT_ULONG, 1, Unsigned(size)));
      PatchesJoin(b, start, count + first, second);
      dirIndex := dirIndex + 12;
      Put32u(buffer, dirIndex, 0);
      PatchesJoin(b, start, count + first + second, next);
    }

    /** The whole header, for a date string of 19 characters. */
    method CreateSimpleExif(buffer: array<Byte>, date: seq<Byte>, offset: int, size: int)
      requires buffer.Length >= EXIF_SIZE && |date| == 19
      modifies this, buffer
      ensures !motorolaOrder
      ensures buffer[..] == ExifBytes(date, offset, size) + old(buffer[EXIF_SIZE..])
    {
      ghost var magic, first, link := Bytes16(false, 0x2A), Bytes32(false, 8), Bytes32(false, 96);
      assert HeaderPart() == SIGNATURE + magic + first;
      hide Bytes16, Bytes32, ExifBytes, HeaderPart, MainEntries, ExifEntries, ThumbnailEntries, Patch;
      ghost var b := buffer[..];
      motorolaOrder := false;
      PutBytes(buffer, 0, SIGNATURE);
      Put16u(buffer, 8, 0x2A);
      PatchesJoin(b, 0, SIGNATURE, magic);
      var dataWriteIndex := 14;
      Put32u(buffer, 10, dataWriteIndex - 6);
      PatchesJoin(b, 0, SIGNATURE + magic, first);
      ghost var b1 := buffer[..];
      var dateIndex, dirContinuation;
      dataWriteIndex, dateIndex, dirContinuation := PutMain(buffer, dataWriteIndex, date);
      ghost var b2 := buffer[..];
      DateInPlace(b1, b2, date);
      assert buffer[..][44..64] == b2[44..64];
      dataWriteIndex := PutExif(buffer, dataWriteIndex, dateIndex, date);
      Put32u(buffer, dirContinuation, dataWriteIndex - 6);
      PutThumbnail(buffer, dataWriteIndex, offset, size);
      HeaderAssembled(b, date, offset, size);
    }
  }

  lemma DateInPlace(b: seq<Byte>, after: seq<Byte>, date: seq<Byte>)
    requires |b| >= EXIF_SIZE && |date| == 19
    requires after == Patch(Patch(b, 14, MainEntries(14)), 44, date + [0])
    ensures after[44..64] == date + [0]
  {
  }

  lemma HeaderAssembled(b: seq<Byte>, date: seq<Byte>, offset: int, size: int)
    requires |b| >= EXIF_SIZE && |date| == 19
    ensures var d := date + [0];
            Patch(Patch(Patch(Patch(Patch(Patch(b, 0, HeaderPart()), 14, MainEntries(14)), 44, d),
                              64, ExifEntries(64) + d), 40, Bytes32(false, 96)), 102, ThumbnailEntries(offset, size)) ==
            ExifBytes(date, offset, size) + b[EXIF_SIZE..]
  {
    var d, link, h, m, e, t := date + [0], Bytes32(false, 96), HeaderPart(), MainEntries(14), ExifEntries(64),
      ThumbnailEntries(offset, size);
    assert ExifBytes(date, offset, size) == h + m + link + (d + (e + d)) + t;
    assert Patch(b, 0, h + m + link + (d + (e + d)) + t) == h + m + link + (d + (e + d)) + t + b[EXIF_SIZE..];
    hide *;
    PatchesJoin(b, 0, h, m);
    var b1 := Patch(b, 0, h + m);
    PatchesJoin(b1, 44, d, e + d);
    PatchesSwap(b1, 40, link, 44, d + (e + d));
    PatchesJoin(b, 0, h + m, link);
    PatchesJoin(b, 0, h + m + link, d + (e + d));
    PatchesJoin(b, 0, h + m + link + (d + (e + d)), t);
  }

  // Reading it back: an independent walk over the directories.

  datatype Directory = Directory(entries: seq<Entry>, next: int)

  function ReadEntry(motorola: bool, b: seq<Byte>, at: nat): Entry
    requires at + 12 <= |b|
  {
    Entry(Get16u(motorola, b, at), Get16u(motorola, b, at + 2), Get32u(motorola, b, at + 4),
          Get32u(motorola, b, at + 8))
  }

  function ReadEntries(motorola: bool, b: seq<Byte>, at: nat, count: nat): (entries: seq<Entry>)
    requires at + 12 * count <= |b|
    ensures |entries| == count
    ensures forall k :: 0 <= k < count ==> entries[k] == ReadEntry(motorola, b, at + 12 * k)
  {
    seq(count, k requires 0 <= k < count => ReadEntry(motorola, b, at + 12 * k))
  }

  /** The directory at an offset from the TIFF header, which is six bytes in; None if it leaves the bytes. */
  function ReadDirectory(motorola: bool, b: seq<Byte>, offset: nat): Option<Directory> {
    var at := offset + 6;
    if at + 2 > |b| then None
    else
      var count := Get16u(motorola, b, at);
      var end := at + 2 + 12 * count;
      if end + 4 > |b| then None
      else
        Some(Directory(ReadEntries(motorola, b, at + 2, count), Get32u(motorola, b, end)))
  }

  /** The value of the first entry with a tag. */
  function Lookup(entries: seq<Entry>, tag: int): Option<int> {
    if entries == [] then None
    else if entries[0].tag == tag then Some(entries[0].value)
    else Lookup(entries[1..], tag)
  }

  datatype Contents = Contents(main: Directory, exif: Directory, thumbnail: Directory)

  /** The walk: the byte order mark, the magic number, IFD0, the Exif directory it links to, and the next IFD. */
  function Walk(b: seq<Byte>): Option<Contents> {
    if |b| < 14 || b[..6] != SIGNATURE[..6] || b[6] != b[7] || (b[6] != 0x49 && b[6] != 0x4D) then None
    else
      var motorola := b[6] == 0x4D;
      if Get16u(motorola, b, 8) != 0x2A then None
      else
        var main := ReadDirectory(motorola, b, Get32u(motorola, b, 10));
        if main.None? then None
        else
          var link := Lookup(main.value.entries, TAG_EXIF_OFFSET);
          if link.None? || link.value < 0 then None
          else
            var exif := ReadDirectory(motorola, b, link.value);
            if main.value.next < 0 then None
            else
              var thumbnail := ReadDirectory(motorola, b, main.value.next);
              if exif.None? || thumbnail.None? then None
              else Some(Contents(main.value, exif.value, thumbnail.value))
  }

  lemma EntryOfPut(motorola: bool, b: seq<Byte>, at: nat, e: Entry)
    requires at + 12 <= |b| && e.Fits() && b[at..at + 12] == EntryBytes(motorola, e)
    ensures ReadEntry(motorola, b, at) == e
  {
    var tag, format := Bytes16(motorola, e.tag), Bytes16(motorola, e.format);
    var components, value := Bytes32(motorola, e.components), Bytes32(motorola, e.value);
    SplitSlice(b, at, tag + format + components, value);
    SplitSlice(b, at, tag + format, components);
    SplitSlice(b, at, tag, format);
    hide Bytes16, Bytes32, Get16u, Get32u;
    Get16uOfPut(motorola, b, at, e.tag);
    Get16uOfPut(motorola, b, at + 2, e.format);
    Get32OfPut(motorola, b, at + 4, e.components);
    Get32OfPut(motorola, b, at + 8, e.value);
  }

  predicate AllFit(entries: seq<Entry>) {
    forall k :: 0 <= k < |entries| ==> entries[k].Fits()
  }

  function DirectoryBytes(motorola: bool, d: Directory): (b: seq<Byte>)
    requires |d.entries| < 0x10000 && 0 <= d.next < TWO_TO_THE_32 && AllFit(d.entries)
    ensures |b| == 6 + 12 * |d.entries|
  {
    Bytes16(motorola, |d.entries|) + EntriesBytes(motorola, d.entries) + Bytes32(motorola, d.next)
  }

  function EntriesBytes(motorola: bool, entries: seq<Entry>): (b: seq<Byte>)
    requires AllFit(entries)
    ensures |b| == 12 * |entries|
  {
    if entries == [] then [] else EntryBytes(motorola, entries[0]) + EntriesBytes(motorola, entries[1..])
  }

  lemma SplitAt(b: seq<Byte>, start: nat, middle: nat, end: nat, x: seq<Byte>, y: seq<Byte>)
    requires start + |x| == middle && middle + |y| == end <= |b| && b[start..end] == x + y
    ensures b[start..middle] == x && b[middle..end] == y
  {
    SplitSlice(b, start, x, y);
  }

  lemma FirstEntry(motorola: bool, entries: seq<Entry>)
    requires AllFit(entries) && entries != []
    ensures AllFit(entries[1..]) && entries[0].Fits() && |entries[1..]| == |entries| - 1
    ensures EntriesBytes(motorola, entries) == EntryBytes(motorola, entries[0]) + EntriesBytes(motorola, entries[1..])
  {
    hide EntryBytes;
  }

  lemma {:induction false} EntryAt(motorola: bool, b: seq<Byte>, at: nat, end: nat, entries: seq<Entry>, k: nat)
    requires AllFit(entries) && k < |entries|
    requires end == at + 12 * |entries| && end <= |b| && b[at..end] == EntriesBytes(motorola, entries)
    ensures ReadEntry(motorola, b, at + 12 * k) == entries[k]
    decreases k
  {
    hide *;
    var rest, next := entries[1..], at + 12;
    FirstEntry(motorola, entries);
    SplitAt(b, at, next, end, EntryBytes(motorola, entries[0]), EntriesBytes(motorola, rest));
    if k == 0 {
      EntryOfPut(motorola, b, at, entries[0]);
    } else {
      assert rest[k - 1] == entries[k];
      EntryAt(motorola, b, next, end, rest, k - 1);
      assert next + 12 * (k - 1) == at + 12 * k;
    }
  }

  lemma EntriesOfPut(motorola: bool, b: seq<Byte>, at: nat, entries: seq<Entry>)
    requires AllFit(entries)
    requires at + 12 * |entries| <= |b| && b[at..at + 12 * |entries|] == EntriesBytes(motorola, entries)
    ensures ReadEntries(motorola, b, at, |entries|) == entries
  {
    hide *;
    var read := ReadEntries(motorola, b, at, |entries|);
    forall k | 0 <= k < |entries| ensures read[k] == entries[k] {
      EntryAt(motorola, b, at, at + 12 * |entries|, entries, k);
    }
  }

  lemma DirectorySlices(motorola: bool, b: seq<Byte>, at: nat, d: Directory)
    requires |d.entries| < 0x10000 && 0 <= d.next < TWO_TO_THE_32 && AllFit(d.entries)
    requires var n := 6 + 12 * |d.entries|; at + n <= |b| && b[at..at + n] == DirectoryBytes(motorola, d)
    ensures var end := at + 2 + 12 * |d.entries|;
            && b[at..at + 2] == Bytes16(motorola, |d.entries|)
            && b[at + 2..end] == EntriesBytes(motorola, d.entries)
            && b[end..end + 4] == Bytes32(motorola, d.next)
  {
    var count, entries, next := Bytes16(motorola, |d.entries|), EntriesBytes(motorola, d.entries),
      Bytes32(motorola, d.next);
    assert DirectoryBytes(motorola, d) == count + entries + next;
    hide *;
    SplitSlice(b, at, count + entries, next);
    SplitSlice(b, at, count, entries);
  }

  /** A directory of any size, in either byte order, is read back from its bytes. */
  lemma DirectoryOfPut(motorola: bool, b: seq<Byte>, offset: nat, d: Directory)
    requires |d.entries| < 0x10000 && 0 <= d.next < TWO_TO_THE_32 && AllFit(d.entries)
    requires var n := 6 + 12 * |d.entries|;
             offset + 6 + n <= |b| && b[offset + 6..offset + 6 + n] == DirectoryBytes(motorola, d)
    ensures ReadDirectory(motorola, b, offset) == Some(d)
  {
    hide Bytes16, Bytes32, EntriesBytes, DirectoryBytes, ReadEntries, Get16u, Get32u, AllFit;
    var at := offset + 6;
    DirectorySlices(motorola, b, at, d);
    Get16uOfPut(motorola, b, at, |d.entries|);
    EntriesOfPut(motorola, b, at + 2, d.entries);
    Get32OfPut(motorola, b, at + 2 + 12 * |d.entries|, d.next);
  }

  // The header is read back.

  function MainDirectory(): Directory {
    Directory([Entry(TAG_DATETIME, FMT_STRING, 20, 38), Entry(TAG_EXIF_OFFSET, FMT_ULONG, 1, 58)], 96)
  }

  function ExifDirectory(): Directory {
    Directory([Entry(TAG_DATETIME_ORIGINAL, FMT_STRING, 20, 76)], 0)
  }

  function ThumbnailDirectory(offset: int, size: int): Directory {
    Directory([Entry(TAG_THUMBNAIL_OFFSET, FMT_ULONG, 1, Unsigned(offset)),
               Entry(TAG_THUMBNAIL_LENGTH, FMT_ULONG, 1, Unsigned(size))], 0)
  }

  lemma EntriesBytesOfOne(motorola: bool, e: Entry)
    requires e.Fits()
    ensures AllFit([e]) && EntriesBytes(motorola, [e]) == EntryBytes(motorola, e)
  {
  }

  lemma EntriesBytesOfTwo(motorola: bool, e: Entry, f: Entry)
    requires e.Fits() && f.Fits()
    ensures AllFit([e, f]) && EntriesBytes(motorola, [e, f]) == EntryBytes(motorola, e) + EntryBytes(motorola, f)
  {
  }

  /** The layout: header, IFD0, date, Exif directory, date again, IFD1, with nothing between or after them. */
  lemma ExifLayout(b: seq<Byte>, date: seq<Byte>, offset: int, size: int)
    requires |date| == 19 && |b| >= EXIF_SIZE && b[..EXIF_SIZE] == ExifBytes(date, offset, size)
    ensures b[0..14] == HeaderPart()
    ensures b[14..40] == MainEntries(14) && b[40..44] == Bytes32(false, 96)
    ensures b[44..64] == date + [0]
    ensures b[64..82] == ExifEntries(64)
    ensures b[82..102] == date + [0]
    ensures b[102..EXIF_SIZE] == ThumbnailEntries(offset, size)
  {
    var d, h, m, l, e, t := date + [0], HeaderPart(), MainEntries(14), Bytes32(false, 96), ExifEntries(64),
      ThumbnailEntries(offset, size);
    assert ExifBytes(date, offset, size) == h + m + l + ((d + e) + d) + t;
    assert b[0..EXIF_SIZE] == b[..EXIF_SIZE];
    hide *;
    SplitSlice(b, 0, h + m + l + ((d + e) + d), t);
    SplitSlice(b, 0, h + m + l, (d + e) + d);
    SplitSlice(b, 0, h + m, l);
    SplitSlice(b, 0, h, m);
    SplitSlice(b, 44, d + e, d);
    SplitSlice(b, 44, d, e);
  }

  lemma PartsAreDirectories(offset: int, size: int)
    ensures AllFit(MainDirectory().entries) && AllFit(ExifDirectory().entries)
            && AllFit(ThumbnailDirectory(offset, size).entries)
    ensures DirectoryBytes(false, MainDirectory()) == MainEntries(14) + Bytes32(false, 96)
    ensures DirectoryBytes(false, ExifDirectory()) == ExifEntries(64)
    ensures DirectoryBytes(false, ThumbnailDirectory(offset, size)) == ThumbnailEntries(offset, size)
  {
    var m, e, t := MainDirectory().entries, ExifDirectory().entries, ThumbnailDirectory(offset, size).entries;
    EntriesBytesOfTwo(false, m[0], m[1]);
    EntriesBytesOfOne(false, e[0]);
    EntriesBytesOfTwo(false, t[0], t[1]);
    hide EntriesBytes, EntryBytes, Bytes16, Bytes32, Unsigned;
  }

  lemma HeaderBytes(b: seq<Byte>)
    requires |b| >= 14 && b[0..14] == HeaderPart()
    ensures b[..6] == SIGNATURE[..6] && b[6] == 0x49 && b[7] == 0x49
    ensures Get16u(false, b, 8) == 0x2A && Get32u(false, b, 10) == 8
  {
    var magic, first := Bytes16(false, 0x2A), Bytes32(false, 8);
    SplitSlice(b, 0, SIGNATURE + magic, first);
    SplitSlice(b, 0, SIGNATURE, magic);
    assert b[0..8] == SIGNATURE;
    assert b[..6] == b[0..8][..6] && b[6] == b[0..8][6] && b[7] == b[0..8][7];
    hide Bytes16, Bytes32, Get16u, Get32u;
    Get16uOfPut(false, b, 8, 0x2A);
    Get32OfPut(false, b, 10, 8);
  }

  lemma Links()
    ensures Lookup(MainDirectory().entries, TAG_EXIF_OFFSET) == Some(58)
    ensures Lookup(MainDirectory().entries, TAG_DATETIME) == Some(38)
    ensures Lookup(ExifDirectory().entries, TAG_DATETIME_ORIGINAL) == Some(76)
  {
  }

  lemma ThumbnailLinks(offset: int, size: int)
    ensures Lookup(ThumbnailDirectory(offset, size).entries, TAG_THUMBNAIL_OFFSET) == Some(Unsigned(offset))
    ensures Lookup(ThumbnailDirectory(offset, size).entries, TAG_THUMBNAIL_LENGTH) == Some(Unsigned(size))
  {
  }

  /** The string an entry points at. */
  function StringAt(b: seq<Byte>, offset: int, components: nat): Option<seq<Byte>> {
    if 0 <= offset && offset + 6 + components <= |b| then Some(b[offset + 6..offset + 6 + components]) else None
  }

  /** The walk over a written header finds the three directories. */
  lemma WalkFindsDirectories(b: seq<Byte>, date: seq<Byte>, offset: int, size: int)
    requires |date| == 19 && |b| >= EXIF_SIZE && b[..EXIF_SIZE] == ExifBytes(date, offset, size)
    ensures Walk(b) == Some(Contents(MainDirectory(), ExifDirectory(), ThumbnailDirectory(offset, size)))
  {
    ExifLayout(b, date, offset, size);
    PartsAreDirectories(offset, size);
    assert b[14..44] == b[14..40] + b[40..44];
    HeaderBytes(b);
    Links();
    hide ExifBytes, HeaderPart, MainEntries, ExifEntries, ThumbnailEntries, ReadDirectory, DirectoryBytes, Bytes32,
      Get16u, Get32u, Lookup, AllFit, Unsigned;
    DirectoryOfPut(false, b, 8, MainDirectory());
    DirectoryOfPut(false, b, 58, ExifDirectory());
    DirectoryOfPut(false, b, 96, ThumbnailDirectory(offset, size));
  }

  /**
   From the header alone, for every date and all 32-bit numbers: both date entries lead to the date
   with its terminator, and the thumbnail entries give the offset and the size.
   */
  lemma WalkRecovers(b: seq<Byte>, date: seq<Byte>, offset: int, size: int)
    requires |date| == 19 && |b| >= EXIF_SIZE && b[..EXIF_SIZE] == ExifBytes(date, offset, size)
    ensures var r := Walk(b);
            && r.Some?
            && var c := r.value;
            && (var at := Lookup(c.main.entries, TAG_DATETIME);
                at.Some? && StringAt(b, at.value, 20) == Some(date + [0]))
            && (var at := Lookup(c.exif.entries, TAG_DATETIME_ORIGINAL);
                at.Some? && StringAt(b, at.value, 20) == Some(date + [0]))
            && Lookup(c.thumbnail.entries, TAG_THUMBNAIL_OFFSET) == Some(Unsigned(offset))
            && Lookup(c.thumbnail.entries, TAG_THUMBNAIL_LENGTH) == Some(Unsigned(size))
            && c.thumbnail.next == 0
  {
    WalkFindsDirectories(b, date, offset, size);
    ExifLayout(b, date, offset, size);
    Links();
    ThumbnailLinks(offset, size);
    hide Walk, ExifBytes, Lookup, Unsigned;
  }

  // In numbers: the tags and formats of the Exif standard, and the bytes in the order of "II".

  /** The three directories that the walk finds, and the dates and numbers behind their tags. */
  lemma WalkInNumbers(b: seq<Byte>, date: seq<Byte>, offset: int, size: int)
    requires |date| == 19 && |b| >= 132 && b[..132] == ExifBytes(date, offset, size)
    ensures Walk(b) == Some(Contents(
                Directory([Entry(0x0132, 2, 20, 38), Entry(0x8769, 4, 1, 58)], 96),
                Directory([Entry(0x9003, 2, 20, 76)], 0),
                Directory([Entry(0x0201, 4, 1, offset % 0x1_0000_0000), Entry(0x0202, 4, 1, size % 0x1_0000_0000)], 0)))
    ensures b[44..63] == date && b[63] == 0 && b[82..101] == date && b[101] == 0
  {
    WalkFindsDirectories(b, date, offset, size);
    ExifLayout(b, date, offset, size);
    assert b[44..63] == b[44..64][..19] && b[63] == b[44..64][19];
    assert b[82..101] == b[82..102][..19] && b[101] == b[82..102][19];
    hide Walk, ExifBytes;
  }

  /** The byte order. */
  lemma NumbersInBytes()
    ensures Bytes16(false, 0x1234) == [0x34, 0x12] && Bytes16(true, 0x1234) == [0x12, 0x34]
    ensures Bytes32(false, 0x1234_5678) == [0x78, 0x56, 0x34, 0x12]
    ensures Bytes32(true, 0x1234_5678) == [0x12, 0x34, 0x56, 0x78]
  {
  }

  /** Every byte of the header but those of the dates and the two numbers. */
  lemma HeaderInBytes(date: seq<Byte>, offset: int, size: int)
    requires |date| == 19
    ensures var o, n := Bytes32(false, offset % 0x1_0000_0000), Bytes32(false, size % 0x1_0000_0000);
            ExifBytes(date, offset, size)
            == [0x45, 0x78, 0x69, 0x66, 0, 0, 0x49, 0x49, 0x2A, 0, 8, 0, 0, 0]
               + [2, 0, 0x32, 0x01, 2, 0, 20, 0, 0, 0, 38, 0, 0, 0, 0x69, 0x87, 4, 0, 1, 0, 0, 0, 58, 0, 0, 0]
               + [96, 0, 0, 0]
               + (date + [0] + [1, 0, 0x03, 0x90, 2, 0, 20, 0, 0, 0, 76, 0, 0, 0, 0, 0, 0, 0] + date + [0])
               + ([2, 0, 0x01, 0x02, 4, 0, 1, 0, 0, 0] + o + [0x02, 0x02, 4, 0, 1, 0, 0, 0] + n + [0, 0, 0, 0])
  {
    HeaderPartInBytes();
    MainInBytes();
    ExifInBytes();
    ThumbnailInBytes(offset, size);
    hide HeaderPart, MainEntries, ExifEntries, ThumbnailEntries;
  }

  lemma HeaderPartInBytes()
    ensures HeaderPart() == [0x45, 0x78, 0x69, 0x66, 0, 0, 0x49, 0x49, 0x2A, 0, 8, 0, 0, 0]
  {
  }

  lemma MainInBytes()
    ensures MainEntries(14)
            == [2, 0, 0x32, 0x01, 2, 0, 20, 0, 0, 0, 38, 0, 0, 0, 0x69, 0x87, 4, 0, 1, 0, 0, 0, 58, 0, 0, 0]
    ensures Bytes32(false, 96) == [96, 0, 0, 0]
  {
  }

  lemma ExifInBytes()
    ensures ExifEntries(64) == [1, 0, 0x03, 0x90, 2, 0, 20, 0, 0, 0, 76, 0, 0, 0, 0, 0, 0, 0]
  {
  }

  lemma ThumbnailInBytes(offset: int, size: int)
    ensures var o, n := Bytes32(false, offset % 0x1_0000_0000), Bytes32(false, size % 0x1_0000_0000);
            ThumbnailEntries(offset, size)
            == [2, 0, 0x01, 0x02, 4, 0, 1, 0, 0, 0] + o + [0x02, 0x02, 4, 0, 1, 0, 0, 0] + n + [0, 0, 0, 0]
  {
    var o, n := Bytes32(false, offset % 0x1_0000_0000), Bytes32(false, size % 0x1_0000_0000);
    var count, next := Bytes16(false, 2), Bytes32(false, 0);
    assert count == [2, 0] && next == [0, 0, 0, 0];
    var first := EntryBytes(false, Entry(TAG_THUMBNAIL_OFFSET, FMT_ULONG, 1, Unsigned(offset)));
    var second := EntryBytes(false, Entry(TAG_THUMBNAIL_LENGTH, FMT_ULONG, 1, Unsigned(size)));
    assert first == [0x01, 0x02, 4, 0, 1, 0, 0, 0] + o;
    assert second == [0x02, 0x02, 4, 0, 1, 0, 0, 0] + n;
  }

  // Coverage.

  datatype Region = Region(start: int, length: int)

  function DirectoryRegion(offset: int, d: Directory): Region {
    Region(offset + 6, 6 + 12 * |d.entries|)
  }

  function StringRegions(entries: seq<Entry>): seq<Region> {
    if entries == [] then []
    else
      (if entries[0].format == FMT_STRING then [Region(entries[0].value + 6, entries[0].components)] else []) +
      StringRegions(entries[1..])
  }

  /** The regions follow each other without a gap or an overlap, from one index to another. */
  ghost predicate Tiles(regions: seq<Region>, from: int, to: int) {
    && regions != []
    && regions[0].start == from
    && (forall k :: 0 <= k < |regions| ==> regions[k].length > 0)
    && (forall k :: 0 < k < |regions| ==> regions[k].start == regions[k - 1].start + regions[k - 1].length)
    && regions[|regions| - 1].start + regions[|regions| - 1].length == to
  }

  /** The regions the walk visits, in file order. */
  function Regions(c: Contents): seq<Region> {
    var link := Lookup(c.main.entries, TAG_EXIF_OFFSET);
    [Region(0, 14), DirectoryRegion(8, c.main)] + StringRegions(c.main.entries) +
    [DirectoryRegion(if link.Some? then link.value else 0, c.exif)] + StringRegions(c.exif.entries) +
    [DirectoryRegion(c.main.next, c.thumbnail)]
  }

  /** The header, the directories and the date strings tile the bytes 0 to 0x83. */
  lemma WalkTiles(b: seq<Byte>, date: seq<Byte>, offset: int, size: int)
    requires |date| == 19 && |b| >= EXIF_SIZE && b[..EXIF_SIZE] == ExifBytes(date, offset, size)
    ensures Walk(b).Some? && Tiles(Regions(Walk(b).value), 0, EXIF_SIZE)
  {
    WalkFindsDirectories(b, date, offset, size);
    RegionsOfDirectories(offset, size);
    hide *;
    SixTile([Region(0, 14), Region(14, 30), Region(44, 20), Region(64, 18), Region(82, 20), Region(102, 30)]);
  }

  lemma SixTile(r: seq<Region>)
    requires r == [Region(0, 14), Region(14, 30), Region(44, 20), Region(64, 18), Region(82, 20), Region(102, 30)]
    ensures Tiles(r, 0, EXIF_SIZE)
  {
  }

  lemma RegionsOfDirectories(offset: int, size: int)
    ensures Regions(Contents(MainDirectory(), ExifDirectory(), ThumbnailDirectory(offset, size))) ==
            [Region(0, 14), Region(14, 30), Region(44, 20), Region(64, 18), Region(82, 20), Region(102, 30)]
  {
  }
}
