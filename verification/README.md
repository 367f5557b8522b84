# Models of the BSP sample programs, with proofs

This project models the computing parts of five sample programs of a board support package and proves what they
are for. Device access is not modelled; what the programs compute, and what state they keep between steps, is.

| program | files here |
|---|---|
| software AES, `aes/aes_sw.cpp` | `Gf256`, `Sbox`, `Fips197`, `CipherInverse` (the byte-level standard, FIPS-197), `AesTables`, `AesWords`, `AesRounds`, `AesSchedule` (the table-driven form), `AesModes` (ECB and CBC, NIST SP 800-38A), `AesContext` (the program), `AesCalls` (several calls in a row) |
| JPEG demonstration, `jpeg_codec/jpeg_demo.c` | `JpegHeader`, `JpegHeaderProofs`, `JpegRecovery`, `JpegMarkers`, `JpegRead`, `JpegSplice`, `JpegResize`, `WindowDecode`, `ColorConvert`, `PlanarYuv` |
| Exif header writer, `jpeg_codec/exif.c` | `ExifHeader` |
| video gadget, `uvc_gadget_demo/uvc-gadget.c` | `UvcNegotiation`, `UvcDevice`, `UvcProofs`, `UvcReplies` |
| OSD demonstration, `osd/osd_demo.c` | `OsdWalk` |
| shared by several | `Machine` (bytes, 32-bit words, options), `Tally` (how often places are written) |

Code that works in place is modelled in place, by methods over arrays and over classes with the program's fields. Each
such method is tied by its contract to a function of the old state, and the main results are about those functions.

## Main results

AES. A table round is a round of FIPS-197, the three unrolled key expansions are the one recurrence of section 5.2,
and the second schedule with the reverse tables is the Equivalent Inverse Cipher of section 5.3.5, which is proved equal
to the inverse cipher of section 5.3 on the first schedule. So decryption undoes encryption, for every key, initial
vector, mode string and buffer, and encryption undoes decryption, both also as methods over the in-place loops. Both
directions compose over concatenated inputs, and CBC decryption confines a change of one block to two blocks. Which mode
strings chain is stated in letters, and what a key, a mode and a buffer of bytes yield block by block. The tables
themselves are compared with the definition of the S-box by inversion in the field and the affine transformation, entry by entry.

JPEG headers. The marker scanner stops on every buffer; once it has found a size, more bytes change nothing, so the
piecewise reading loop finds what one scan of the whole file finds. For every header of application, comment,
Huffman, quantization, scan and unknown segments the scanner finds the frame's height and width and records the segments,
unless a segment makes it lose its place. Cut short anywhere, the header yields the size exactly when its frame header is
whole; of all frame codes exactly 0xC0 is accepted, and of all quantization lengths exactly the multiples of 65. It loses
its place exactly for a lone quantization table that ends in 0xFF: the program
skips 64 of the table's 65 bytes (`jpeg_codec/jpeg_demo.c:150`). If the segment after such a table has no other 0xFF in
it, just that segment is lost and the size is found all the same. The recorded segments lie in the source in order, or the
last one of a rejected scan reaches past it. From the pieces of the source to the output file, the collected segments
and the splice give a header that the scanner reads again; and the file is stated for every source, found or not.

Exif. Put and Get are inverse in both byte orders, a directory of any size is read back from its bytes, and an
independent walk over the written header recovers the three directories, both dates and the two thumbnail numbers; what
it visits tiles the 132 bytes.

Video gadget. In every reachable state both controls hold a valid block with the size of its entry, and every request code
is answered as stated, in the numbers of the wire. A DATA event changes the control that the latest
SETUP event selected and nothing else. A format is current exactly after a commit, and then it is that of the committed
entry. Negotiating again changes nothing exactly when the request was in reach or the interval list ends well; the
program's own lists are increasing and always settle, and a host that commits what it was shown gets what it was shown.

Decode window, colour conversion, OSD walk. The window loop ends under an exact condition on the sizes; then the window
goes out and back in `2(k + 1)` decodes and stays inside the picture exactly when the panel fits. Colour components lie
within a unit of the stretched field, and the bytes computed from them within 0.502 of the exact sums. Every byte of the three
planes is characterized for every width on which the loops end, and is written exactly once exactly when the width is
even. The OSD walk is followed for pictures of any size; a pass changes every pixel exactly once exactly when the sizes
are multiples of 5 and 4, or there is no pixel.

## Where the code differs from what its text suggests

- The splice is meant to write the segments and the whole encoded image, but the length at
  `jpeg_codec/jpeg_demo.c:1600` is two bytes short: the start marker is counted out twice. The model writes what the code writes.
- The comment at `jpeg_codec/jpeg_demo.c:149` speaks of one quantization table; 65 bytes are announced and 64 skipped.
- A quantization segment with 16-bit tables, of 129 bytes each, is legal but refused (`jpeg_codec/jpeg_demo.c:145`).
- A quantization length of 0 or 1 wraps in the 16-bit variable of line 141 to 65534 or 65535; the model wraps too.
- The comment at `jpeg_codec/jpeg_demo.c:1807-1814` says that the colour (0, 0, 1) gives a Cb of 129. Line 1825 takes 1 off the
  offset, ties go down, and the tables give 128.
- The conversion to planes is meant for pairs of pixels of one row. With an odd width the last pair of each row takes
  the first pixel of the next row along, whose luma is then written twice with the same value, and leaves its chroma of
  even rows to be overwritten by the next row; at the end the first
  byte of the second plane becomes the luma of the pixel behind the picture and, if the number of pixels is odd,
  the first byte of the third plane the last Cb. With a width of 65535 the 16-bit column counter never reaches the end of a row.
- For a panel shorter than 16 pixels along one side the end of the decode window starts below zero. On its way back the
  window then steps over the corner, and the loop does not end.
- `jpeg_resize` does not look at the outcome of the scan after its reading loop. It collects and splices whatever the last
  scan recorded; the last segment of a rejected scan may reach past the source, and then what lies behind the
  source in the buffer is copied too.
- The date of `create_simple_EXIF` is formatted with a line feed, as 20 characters and a terminator, into an array of 20
  (`jpeg_codec/exif.c:201-212`); the terminator goes one place too far. The formatting is not part of this model.
- For OSD sizes that are no multiples of 5 and 4 the walk drifts, misses pixels or changes them more than once, and can
  leave the picture: with 6 by 400 pixels the second block begins before the first pixel.
- The tables for recorded segments have ten places and are not checked. The model gives the outcome `TableFull` where an
  eleventh segment turns up and states nothing about what the program does after that.

## Model

| member | source | states |
|---|---|---|
| Sbox.FSbIsSubByte | aes/aes_sw.cpp:173-209 | Every entry of FSb is the byte substitution of FIPS-197 section 5.1.1: the affine transformation of the field inverse |
| Sbox.RSbIsInvSubByte | aes/aes_sw.cpp:211-245 | Every entry of RSb is the inverse byte substitution of section 5.3.2 |
| Sbox.SboxTablesInvert | aes/aes_sw.cpp:173-245 | FSb and RSb undo each other, both ways round |
| Sbox.InverseIsInverse | aes/aes_sw.cpp:173-209 | The power 254 that the substitution is defined with is the inverse of every non-zero byte in the field |
| AesWords.ForwardEntries | aes/aes_sw.cpp:141-168 | FT0 to FT3 are the columns of the MixColumn matrix times the substituted byte |
| AesWords.ReverseEntries | aes/aes_sw.cpp:141-168 | RT0 to RT3 are the columns of the InvMixColumn matrix times the inversely substituted byte |
| AesSchedule.RconTable | aes/aes_sw.cpp:249-252 | RCON holds the first ten powers of x in the field |
| AesContext.PutUint32 | aes/aes_sw.cpp:264-270 | The four bytes of a word are written lowest first and nothing else changes |
| AesContext.GetBlockMeans | aes/aes_sw.cpp:256-262 | Four GET_UINT32 load sixteen bytes column by column |
| AesContext.PutBlock | aes/aes_sw.cpp:500-503 | Four PUT_UINT32 store exactly the block, and only its sixteen bytes change |
| CipherInverse.AddRoundKeyCancels | aes/aes_sw.cpp:423-427 | Combining with the same round key twice changes nothing |
| CipherInverse.SubBytesInverts | aes/aes_sw.cpp:478-498 | InvSubBytes undoes SubBytes and the other way round |
| CipherInverse.ShiftRowsInverts | aes/aes_sw.cpp:478-498 | InvShiftRows undoes ShiftRows and the other way round |
| CipherInverse.ShiftRowsRotates | aes/aes_sw.cpp:429-452 | Row r of the state moves r columns to the left, and back to the right in the inverse, entry by entry as in sections 5.1.2 and 5.3.1 |
| CipherInverse.ShiftRowsSubBytesCommute | aes/aes_sw.cpp:587-607 | Substituting and shifting commute, which turns the order of section 5.3 into that of section 5.3.5 |
| CipherInverse.MixColumnInverts | aes/aes_sw.cpp:429-452 | InvMixColumn undoes MixColumn for every column and the other way round |
| CipherInverse.ColumnExample | aes/aes_sw.cpp:429-452 | The products worked out in section 4.2 of FIPS-197, and a mixed column of its appendix B |
| CipherInverse.InvMixColumnXor | aes/aes_sw.cpp:368-388 | InvMixColumn distributes over exclusive or, which is why it may be applied to round keys |
| CipherInverse.MixColumnsInverts | aes/aes_sw.cpp:429-452 | The same for whole states |
| CipherInverse.InvMixColumnsXor | aes/aes_sw.cpp:368-388 | Linearity of InvMixColumns on whole states |
| CipherInverse.InvRoundsUndoRounds | aes/aes_sw.cpp:454-474 | Any number of inverse rounds undoes as many rounds |
| CipherInverse.RoundsUndoInvRounds | aes/aes_sw.cpp:563-583 | Any number of rounds undoes as many inverse rounds |
| CipherInverse.CipherInverts | aes/aes_sw.cpp:423-498 | InvCipher undoes Cipher and the other way round, for every schedule, round count and block |
| AesWords.ForwardWordMeans | aes/aes_sw.cpp:433-436 | One assignment of FROUND is MixColumn of the four substituted bytes it reads, plus the key word |
| AesWords.ReverseWordMeans | aes/aes_sw.cpp:542-545 | One assignment of RROUND is InvMixColumn of the four inversely substituted bytes, plus the key word |
| AesWords.ForwardLastWordMeans | aes/aes_sw.cpp:480-483 | One assignment of the last round is the four substituted bytes plus the key word |
| AesWords.ReverseLastWordMeans | aes/aes_sw.cpp:589-592 | One assignment of the last reverse round is the four inversely substituted bytes plus the key word |
| AesRounds.ForwardRoundMeans | aes/aes_sw.cpp:429-452 | FROUND is SubBytes, ShiftRows, MixColumns, AddRoundKey |
| AesRounds.ForwardLastRoundMeans | aes/aes_sw.cpp:476-498 | The last round is SubBytes, ShiftRows, AddRoundKey |
| AesRounds.ReverseRoundMeans | aes/aes_sw.cpp:538-561 | RROUND is InvSubBytes, InvShiftRows, InvMixColumns, AddRoundKey, the order of section 5.3.5 |
| AesRounds.ReverseLastRoundMeans | aes/aes_sw.cpp:585-607 | The last reverse round is InvSubBytes, InvShiftRows, AddRoundKey |
| AesRounds.EquivalentInverse | aes/aes_sw.cpp:532-607 | The equivalent inverse cipher on the transformed schedule is the inverse cipher on the first one, for every round count |
| AesContext.Fround | aes/aes_sw.cpp:429-474 | After FROUND number r the block is that of r rounds of the cipher |
| AesContext.Rround | aes/aes_sw.cpp:538-583 | After RROUND number r the block is that of r rounds of the equivalent inverse cipher |
| AesSchedule.RotSubMeans | aes/aes_sw.cpp:302-306 | The first assignment of an expansion step is SubWord of RotWord, plus the round constant and the earlier word |
| AesSchedule.SubMeans | aes/aes_sw.cpp:346-350 | The extra assignment for 256-bit keys is SubWord plus the earlier word |
| AesSchedule.ScheduleRotSub | aes/aes_sw.cpp:302-306 | At a multiple of the key length that assignment continues the recurrence of FIPS-197 section 5.2 |
| AesSchedule.ScheduleSub | aes/aes_sw.cpp:346-350 | At index 4 modulo a key length above 6 the extra assignment continues the recurrence |
| AesSchedule.SchedulePlain | aes/aes_sw.cpp:308-310 | At every other index the plain exclusive or continues the recurrence |
| AesSchedule.ExpansionExamples | aes/aes_sw.cpp:300-355 | The recurrence yields the first words that appendix A of FIPS-197 lists for its three keys |
| AesSchedule.InvMixWordMeans | aes/aes_sw.cpp:370-373 | RT composed with FSb is InvMixColumn |
| AesSchedule.InverseKeysMakeInverseSchedule | aes/aes_sw.cpp:359-388 | Reversed rounds with InvMixColumns on the inner ones are the schedule of the equivalent inverse cipher |
| AesContext.AesContext.constructor | aes/main.cpp:190 | A context before its key is set: two schedules of 64 words, contents arbitrary |
| AesContext.ChainsExactly | aes/aes_sw.cpp:416 | A mode chains exactly when it starts with one of the eight ways to write "cbc" |
| AesContext.NamedModes | aes/aes_sw.cpp:416 | So "cbc" and "CBC" chain, whatever follows, and "ecb" and "ECB" do not |
| AesContext.AesContext.LoadKey | aes/aes_sw.cpp:289-294 | The first words are the key's; the others stay |
| AesContext.AesContext.StoreRotSub | aes/aes_sw.cpp:302-306 | One such assignment extends the schedule by a word and changes no other; the round constant index is below 10 |
| AesContext.AesContext.StoreSub | aes/aes_sw.cpp:346-350 | The same for the extra assignment of 256-bit keys |
| AesContext.AesContext.StorePlain | aes/aes_sw.cpp:308-310 | The same for a plain exclusive or |
| AesContext.AesContext.Expand128 | aes/aes_sw.cpp:300-312 | The loop yields words 4 to 43 of the recurrence; words from 44 on stay |
| AesContext.AesContext.Expand192 | aes/aes_sw.cpp:317-331 | The loop yields words 6 to 53; words from 54 on stay |
| AesContext.AesContext.Expand256 | aes/aes_sw.cpp:336-355 | The loop yields words 8 to 63, within the 64 words of the array |
| AesContext.AesContext.ReverseRoundKeys | aes/aes_sw.cpp:359-365 | drk is erk by rounds in reverse; round keys beyond nr are not read |
| AesContext.AesContext.MixInverseRoundKeys | aes/aes_sw.cpp:367-388 | Exactly the inner round keys get InvMixColumn, each once |
| AesContext.AesContext.BuildInverse | aes/aes_sw.cpp:359-388 | drk is the schedule of the equivalent inverse cipher for erk |
| AesContext.AesContext.SetKey | aes/aes_sw.cpp:274-391 | Stores the first fifteen characters of the mode; for 128, 192 and 256 bits holds both schedules of the key and returns 0, else returns 1 and changes no schedule |
| AesContext.AesContext.EncryptWords | aes/aes_sw.cpp:423-498 | One block through the conditional rounds is the cipher of FIPS-197 with exactly 10, 12 or 14 rounds |
| AesContext.AesContext.DecryptWords | aes/aes_sw.cpp:532-607 | One block through the conditional rounds is the equivalent inverse cipher with that many rounds |
| AesContext.AesContext.Encrypt | aes/aes_sw.cpp:393-512 | In place, a range of whole blocks becomes its ECB or CBC encryption, with the vector read first even if it is part of the data; any other length and all other bytes are left alone |
| AesContext.AesContext.Decrypt | aes/aes_sw.cpp:514-627 | In place, a range of whole blocks becomes its decryption by the inverse cipher on the first schedule, although the loop overwrites the ciphertext it chains from |
| AesModes.DecryptedEncrypted | aes/aes_sw.cpp:404-626 | Decryption undoes encryption for every mode, vector and sequence of blocks |
| AesModes.EncryptedDecrypted | aes/aes_sw.cpp:404-626 | Encryption undoes decryption |
| AesModes.EncryptedBlock | aes/aes_sw.cpp:411-421 | Ciphertext block k is the cipher of plaintext block k chained with ciphertext block k - 1 |
| AesModes.DecryptedBlock | aes/aes_sw.cpp:609-624 | Plaintext block k depends on ciphertext blocks k and k - 1 only |
| AesModes.DecryptionIsLocal | aes/aes_sw.cpp:530-626 | Changing ciphertext block k leaves every plaintext block but k and, in CBC, k + 1 alone, and k + 1 changes by just that change |
| AesModes.EncryptedComposes | aes/aes_sw.cpp:404-511 | Encrypting A then B from the last ciphertext block of A is encrypting A followed by B |
| AesModes.DecryptedComposes | aes/aes_sw.cpp:525-626 | The same for decryption |
| AesModes.EncryptedUsesPrefix | aes/aes_sw.cpp:423-498 | Schedule words beyond the last round key play no part in encryption |
| AesModes.DecryptedUsesPrefix | aes/aes_sw.cpp:532-607 | ... nor in decryption |
| AesModes.BlocksDetermineBytes | aes/aes_sw.cpp:411-415 | Buffers of whole blocks are equal when their blocks are |
| AesContext.ScheduledIsSchedule | aes/aes_sw.cpp:296-357 | The words that the rounds use are the schedule of the standard |
| AesContext.DemoRound | aes/main.cpp:189-235 | Set a key, encrypt a copy, decrypt it, compare: the comparison never fails, and the middle is the ciphertext of the standard |
| AesCalls.EncryptWithKey | aes/aes_sw.cpp:274-512 | From key bytes and the name of a mode: each block becomes the cipher with the schedule of FIPS-197 and 10, 12 or 14 rounds, of the block combined with the ciphertext block before it when the name starts with "cbc" in any case, else of the block alone |
| AesCalls.DecryptWithKey | aes/aes_sw.cpp:274-627 | Likewise each block becomes its inverse cipher, combined with the ciphertext block before it or not |
| AesCalls.DecryptThenEncrypt | aes/aes_sw.cpp:393-627 | Decrypting a range of a buffer, of any length, and encrypting it again with the same context and vector restores every byte |
| AesCalls.EncryptNext | aes/aes_sw.cpp:404-511 | A second call continues the chain with the last block of the range before it, read where it stands in the same buffer |
| AesCalls.EncryptInTwoCalls | aes/aes_sw.cpp:404-511 | Two calls on neighbouring ranges of one buffer leave the bytes that one call on both would, and no others change |
| AesCalls.NextVector | aes/aes_sw.cpp:619-622 | A copy of the vector that continues a chain of decryptions: the last ciphertext block, or the old vector if there is none |
| AesCalls.DecryptInTwoCalls | aes/aes_sw.cpp:525-626 | The same for decryption, which overwrites the block that the second call starts from |
| JpegHeader.AtMarker | jpeg_codec/jpeg_demo.c:125-209 | After a marker the scan goes on strictly further and not beyond the buffer, or stops |
| JpegHeader.AtMarkerByte | jpeg_codec/jpeg_demo.c:125-209 | The switch reads only below the length, but for the marker byte after a final 0xFF, and after that it finds nothing |
| JpegHeader.Parser.Record | jpeg_codec/jpeg_demo.c:201-204 | One entry is appended to the segment tables |
| JpegHeader.Parser.RecordAll | jpeg_codec/jpeg_demo.c:201-204 | A segment found is entered unless the tables are full, which is told |
| JpegHeader.Parser.ParsingJpeg | jpeg_codec/jpeg_demo.c:108-214 | Terminates on every buffer with the outcome of the scan, the tables holding the segments it recorded |
| JpegHeaderProofs.ScanIsStable | jpeg_codec/jpeg_demo.c:119-213 | A size found in the first bytes is found, with the same segments, in every longer buffer |
| JpegHeaderProofs.SegmentsInOrder | jpeg_codec/jpeg_demo.c:195-208 | After a success at most ten segments are recorded, inside the buffer, disjoint and in file order |
| JpegHeaderProofs.SegmentsExactly | jpeg_codec/jpeg_demo.c:195-208 | Whatever the outcome, the recorded segments are in order inside the bytes read, or the scan was rejected and just the last of them reaches past, by at most 65533 bytes |
| JpegHeaderProofs.TableFullIsStable | jpeg_codec/jpeg_demo.c:202-204 | Where some bytes already overrun the tables, all longer buffers do |
| JpegHeaderProofs.ScanHeader | jpeg_codec/jpeg_demo.c:119-211 | For every header of application, comment, Huffman, quantization, scan and unknown segments none of which derails the scan, the outcome is the frame's height and width with exactly the application segments, or TableFull when there are more than ten |
| JpegHeaderProofs.ScanSegments | jpeg_codec/jpeg_demo.c:119-211 | The scan passes over a list of such segments, recording the application segments with their offsets |
| JpegHeaderProofs.StepOverSegment | jpeg_codec/jpeg_demo.c:136-208 | One turn passes over a segment by its length, a scan header too, but for a lone quantization table and unknown markers |
| JpegHeaderProofs.StepIntoUnknown | jpeg_codec/jpeg_demo.c:126-209 | A marker that the switch does not name is passed over alone, and its segment read byte by byte |
| JpegHeaderProofs.StepIntoTable | jpeg_codec/jpeg_demo.c:149-150 | One turn stops at the last byte of a lone table |
| JpegHeaderProofs.KeepsPlaceExactly | jpeg_codec/jpeg_demo.c:149-150 | The scan stands at every segment in turn exactly when no segment is a lone table ending in 0xFF |
| JpegHeaderProofs.HeaderVisitedExactly | jpeg_codec/jpeg_demo.c:119-169 | In a whole header the scan from the first byte stands at every segment and at the frame header exactly when no segment is such a table |
| JpegHeaderProofs.LastTableDecides | jpeg_codec/jpeg_demo.c:149-169 | With a lone table before the frame header and nothing after it, the size is found exactly when the table does not end in 0xFF |
| JpegHeaderProofs.NoSizeInTail | jpeg_codec/jpeg_demo.c:155-157 | No size is found in fewer than nine bytes |
| JpegRecovery.SwallowedSegment | jpeg_codec/jpeg_demo.c:119-150 | A derailing table and a following segment without another 0xFF are passed over together, and the segment is not recorded |
| JpegRecovery.ScanRecoveringHeader | jpeg_codec/jpeg_demo.c:119-211 | Whenever each derailing table has such a segment after it, the size is found, with exactly the other application segments recorded |
| JpegRecovery.NoneDerailsRecovers | jpeg_codec/jpeg_demo.c:119-211 | Where nothing derails, those are all application segments |
| JpegRecovery.SwallowedApplication | jpeg_codec/jpeg_demo.c:149-208 | An application segment right after a derailing table goes unrecorded while the size is found |
| JpegMarkers.StepByLength | jpeg_codec/jpeg_demo.c:170-208 | Scan headers, Huffman tables, application and comment segments are passed over by their length, 0 and 1 included, and the latter two recorded even when cut short |
| JpegMarkers.StepByTables | jpeg_codec/jpeg_demo.c:136-153 | The turn at quantization tables for every length in 16 bits |
| JpegMarkers.StepElsewhere | jpeg_codec/jpeg_demo.c:119-129 | The turn at every other byte and marker, and at markers that the bytes read do not suffice for |
| JpegMarkers.FrameCodeDecides | jpeg_codec/jpeg_demo.c:130-168 | Behind any such segments the height and width are found exactly for frame code 0xC0; the thirteen other codes are refused, with the segments before them recorded |
| JpegMarkers.TableLengthRefused | jpeg_codec/jpeg_demo.c:136-146 | A quantization segment is refused when its length less 2, in 16 bits, is no multiple of 65 |
| JpegMarkers.TableLengthDecides | jpeg_codec/jpeg_demo.c:136-153 | With a quantization segment before the frame header, not a lone table ending in 0xFF, the size is found exactly when the payload is a multiple of 65 bytes |
| JpegMarkers.SizeNeedsWholeFrame | jpeg_codec/jpeg_demo.c:119-213 | Of a header cut short at any byte the size is found exactly when its whole frame header, up to the width, is there |
| JpegRead.Append | jpeg_codec/jpeg_demo.c:312-314 | A piece is read behind what was read before, and nothing else changes |
| JpegRead.ReadPiece | jpeg_codec/jpeg_demo.c:309-326 | After a piece the size known and the tables agree with the scan of all that has been read |
| JpegRead.ReadBitstream | jpeg_codec/jpeg_demo.c:292-333 | Scanning after each piece until the first success finds the size that one scan of the whole file finds, or none, and leaves its segments in the tables; too large a file is reported exactly |
| JpegSplice.SumSizes | jpeg_codec/jpeg_demo.c:1456-1458 | The sum of the recorded sizes |
| JpegSplice.Gather | jpeg_codec/jpeg_demo.c:1464-1469 | The recorded segments stand one after another in the collecting buffer |
| JpegSplice.CollectApps | jpeg_codec/jpeg_demo.c:1453-1470 | Collects the segments and reserves their size rounded up to a multiple of four |
| JpegSplice.PlaceSegments | jpeg_codec/jpeg_demo.c:1592-1599 | In unsigned arithmetic the segments land right in front of the encoded image's third byte, a new start marker in front of them, nothing else changed |
| JpegSplice.SpliceStaysInGap | jpeg_codec/jpeg_demo.c:1462-1490 | Only the reserved room and the encoded image's own start marker are written |
| JpegSplice.Splice | jpeg_codec/jpeg_demo.c:1589-1600 | The file is the start marker, the segments and the encoded image after its own marker, short of the last two bytes |
| JpegSplice.CollectedFirst | jpeg_codec/jpeg_demo.c:1464-1469 | A segment of the source collected first stands first, as it stood there |
| JpegResize.RecordingReaches | jpeg_codec/jpeg_demo.c:195-208 | The segments recorded from a source lie in it, or the last of a rejected scan reaches past; with 65533 bytes behind the source collecting stays in the buffer |
| JpegResize.TruncatedIsRecorded | jpeg_codec/jpeg_demo.c:198-207 | A four-byte source whose scan is rejected and records a segment of 4098 bytes |
| JpegResize.CollectedFromMemory | jpeg_codec/jpeg_demo.c:1464-1469 | What is collected is the segments as they stand in the source, and for one that reaches past it the rest of the source and what lies behind |
| JpegResize.CollectedIsOfSource | jpeg_codec/jpeg_demo.c:1464-1469 | When the recorded segments lie in the source, the decoded image behind it does not disturb them: what is collected is what the file held |
| JpegResize.EncodeAndSplice | jpeg_codec/jpeg_demo.c:1472-1600 | With the decoded image in front and the encoded one behind the reserved room, the file is the splice, short of two bytes |
| JpegResize.Resize | jpeg_codec/jpeg_demo.c:1305-1607 | From the pieces of the source to the bytes of the file, whatever the scan found: the splice of what the last scan recorded, collected from the buffer as it then is, or the encoded image alone without the option |
| JpegResize.CollectedIsCarried | jpeg_codec/jpeg_demo.c:1464-1469 | From a header the scanner recovers in, what is collected is its application segments but for the swallowed ones, in order |
| JpegResize.ResizedHeader | jpeg_codec/jpeg_demo.c:1453-1600 | From such a header the file is a header with those segments in front of the encoder's, and scanning it finds the new size |
| ExifHeader.Get16uOfPut | jpeg_codec/exif.c:127-148 | Get16u reads back what Put16u wrote, in both byte orders |
| ExifHeader.Get32OfPut | jpeg_codec/exif.c:153-188 | Get32u reads back what Put32u wrote, and Get32s its signed reading, in both byte orders |
| ExifHeader.PutOfGet16 | jpeg_codec/exif.c:127-148 | Writing what was read gives the same two bytes |
| ExifHeader.PutOfGet32 | jpeg_codec/exif.c:153-188 | Writing what was read gives the same four bytes |
| ExifHeader.Writer.Put16u | jpeg_codec/exif.c:127-136 | Two bytes in the current order, nothing else changed |
| ExifHeader.Writer.Put32u | jpeg_codec/exif.c:167-180 | Four bytes in the current order, nothing else changed |
| ExifHeader.Writer.PutEntry | jpeg_codec/exif.c:232-236 | One directory entry of twelve bytes |
| ExifHeader.Writer.PutMain | jpeg_codec/exif.c:221-255 | An IFD0 at any index with the date behind it, every pointer and returned index counted from there; the link to the next directory is left open |
| ExifHeader.Writer.PutExif | jpeg_codec/exif.c:257-277 | An Exif directory at any index, with a copy of the date behind it |
| ExifHeader.Writer.PutThumbnail | jpeg_codec/exif.c:282-311 | An IFD1 at any index with the thumbnail's offset and size |
| ExifHeader.Writer.CreateSimpleExif | jpeg_codec/exif.c:193-312 | The first 132 bytes are the whole header, independent of what the buffer held; the rest stays |
| ExifHeader.DirectoryOfPut | jpeg_codec/exif.c:226-255 | A directory with any number of entries is read back from its bytes, in both byte orders |
| ExifHeader.ExifLayout | jpeg_codec/exif.c:213-311 | Where each part of the header stands |
| ExifHeader.WalkFindsDirectories | jpeg_codec/exif.c:213-311 | A reader that follows the links finds IFD0, the Exif directory and IFD1 as written |
| ExifHeader.WalkRecovers | jpeg_codec/exif.c:193-312 | That reader recovers both dates and, for all 32-bit values, the thumbnail's offset and size |
| ExifHeader.WalkTiles | jpeg_codec/exif.c:213-311 | Header, directories and dates tile bytes 0 to 0x83 without a gap or an overlap |
| ExifHeader.WalkInNumbers | jpeg_codec/exif.c:213-311 | The three directories with the tags and formats of the Exif standard, and where the dates stand |
| ExifHeader.HeaderInBytes | jpeg_codec/exif.c:213-311 | Every byte of the header but those of the dates and the two numbers |
| ExifHeader.NumbersInBytes | jpeg_codec/exif.c:127-180 | The order of the bytes of a number, for both byte orders |
| UvcNegotiation.FrameCount | uvc_gadget_demo/uvc-gadget.c:795-797 | The frames before the first of width 0 |
| UvcNegotiation.Pick | uvc_gadget_demo/uvc-gadget.c:803-804 | The first listed interval that is not below the request, else the last |
| UvcNegotiation.Chosen | uvc_gadget_demo/uvc-gadget.c:790-804 | Whatever the host sends, the choice names a format and one of its frames |
| UvcDevice.Device.constructor | uvc_gadget_demo/uvc-gadget.c:236-246 | A device record that is all zero |
| UvcDevice.Device.CountFrames | uvc_gadget_demo/uvc-gadget.c:625-627 | The loop counts the frames before the one of width 0 |
| UvcDevice.Device.MaximumSize | uvc_gadget_demo/uvc-gadget.c:640-651 | Two bytes per pixel in 32 bits, or the size fixed for compressed pictures |
| UvcDevice.Device.FillStreamingControl | uvc_gadget_demo/uvc-gadget.c:612-656 | Fills in the block of the named frame, negative indices counting from the end; an unknown one leaves the block alone |
| UvcDevice.Device.Init | uvc_gadget_demo/uvc-gadget.c:880-885 | Both controls start with the first frame of the first format |
| UvcDevice.Device.ProcessStreaming | uvc_gadget_demo/uvc-gadget.c:673-720 | The response to each request, and SET_CUR alone selects a control |
| UvcDevice.Device.ProcessClass | uvc_gadget_demo/uvc-gadget.c:722-739 | Only requests to the streaming interface have an effect |
| UvcDevice.Device.ProcessSetup | uvc_gadget_demo/uvc-gadget.c:741-761 | A SETUP event selects a control or none, changes nothing else and is answered |
| UvcDevice.Device.FindInterval | uvc_gadget_demo/uvc-gadget.c:801-804 | The pointer loop stops at the picked interval, inside the list |
| UvcDevice.Device.Choose | uvc_gadget_demo/uvc-gadget.c:790-804 | The format, frame and interval that the clamps and the two loops lead to |
| UvcDevice.Device.Negotiate | uvc_gadget_demo/uvc-gadget.c:789-819 | Exactly the four negotiated fields of the target change, to those of the chosen entry |
| UvcDevice.Device.ProcessData | uvc_gadget_demo/uvc-gadget.c:763-828 | The selected control is negotiated; a commit also sets the current format; otherwise nothing changes |
| UvcDevice.Device.Process | uvc_gadget_demo/uvc-gadget.c:830-878 | One event is one step of the state machine; only SETUP events are answered |
| UvcDevice.Device.Serve | uvc_gadget_demo/uvc-gadget.c:1156-1173 | The main loop over any events is a run of the state machine from its initial state |
| UvcProofs.OffersAreValid | uvc_gadget_demo/uvc-gadget.c:698-703 | The blocks filled in for the first frame of the first format and for the last of the last are valid; `UvcReplies.HostIsTold` says which request reports which |
| UvcProofs.NegotiatedIsValid | uvc_gadget_demo/uvc-gadget.c:789-819 | A DATA event turns a valid block into the valid block of the chosen entry, whatever the host sent |
| UvcProofs.RunsAreConsistent | uvc_gadget_demo/uvc-gadget.c:830-878 | The invariant is kept by any sequence of events from any state that has it |
| UvcProofs.AlwaysConsistent | uvc_gadget_demo/uvc-gadget.c:880-885 | In every reachable state both controls name a format, a frame of it, a listed interval and its size, and a current format is that of the committed entry |
| UvcProofs.LatestSetupDecides | uvc_gadget_demo/uvc-gadget.c:741-761 | The selected control is the one of the latest SETUP event, none if that was not a streaming SET_CUR |
| UvcProofs.NoSetupSelectsNothing | uvc_gadget_demo/uvc-gadget.c:763-787 | Without a SETUP event the selection stays |
| UvcProofs.DataChangesOnlyTheSelected | uvc_gadget_demo/uvc-gadget.c:763-828 | After any run a DATA event changes only the control chosen by the latest SETUP event (and with commit the format shown), or nothing |
| UvcProofs.CurrentOnceCommitted | uvc_gadget_demo/uvc-gadget.c:821-824 | A format is current exactly when some DATA event followed a SET_CUR of the commit control |
| UvcProofs.IntervalSettlesExactly | uvc_gadget_demo/uvc-gadget.c:801-804 | Picking again keeps the interval exactly when some interval was not below the request, or no longer interval precedes the first occurrence of the last one |
| UvcProofs.IncreasingTakesNearest | uvc_gadget_demo/uvc-gadget.c:801-804 | In an increasing list the shortest interval not below the request is taken, else the longest, and a listed one is kept |
| UvcProofs.NegotiationSettlesExactly | uvc_gadget_demo/uvc-gadget.c:789-819 | Sending the stored block back changes nothing exactly under that condition on the chosen frame's list |
| UvcProofs.SettlingCanFail | uvc_gadget_demo/uvc-gadget.c:801-804 | With the list 30, 10 a request of 40 yields 10, and 10 sent back yields 30 |
| UvcProofs.ValidIsAccepted | uvc_gadget_demo/uvc-gadget.c:763-819 | With increasing lists a valid block is accepted as it is |
| UvcProofs.HandshakeAgrees | uvc_gadget_demo/uvc-gadget.c:673-828 | Probe, read back, commit: from any reachable state the committed block is the one shown, and the device shows its format |
| UvcProofs.HostRequestsSelect | uvc_gadget_demo/uvc-gadget.c:673-761 | The class requests of the standard select the probe and the commit control, and reading selects none |
| UvcProofs.DemoTablesAreGood | uvc_gadget_demo/uvc-gadget.c:67-95 | The program's tables meet all assumptions made about tables |
| UvcReplies.StreamingExactly | uvc_gadget_demo/uvc-gadget.c:722-761 | The streaming controls take exactly the class requests 0x21 and 0xA1 to interface 1 for control 1 or 2 |
| UvcReplies.OtherRequests | uvc_gadget_demo/uvc-gadget.c:673-761 | Other requests get -51; only SET_CUR selects, and request codes without a case get 34 zero bytes |
| UvcReplies.ReachableSizes | uvc_gadget_demo/uvc-gadget.c:640-651 | In every reachable state both blocks carry two bytes for each pixel of a YUYV frame, modulo 2^32, and 614400 or the image's size for MJPEG |
| UvcReplies.FilledFromBothEnds | uvc_gadget_demo/uvc-gadget.c:619-655 | Each frame of each format is filled in under its index and under the one counted from the end, with every field of the block |
| UvcReplies.NothingElseFilled | uvc_gadget_demo/uvc-gadget.c:619-632 | With any other index the block is left alone |
| UvcReplies.HostIsTold | uvc_gadget_demo/uvc-gadget.c:684-719 | By request code: GET_CUR the current block of the control asked for, GET_MIN and GET_DEF the first frame of the first format, GET_MAX the last of the last, GET_RES zeros, GET_LEN and GET_INFO their bytes |
| UvcReplies.StartsWithTheLeast | uvc_gadget_demo/uvc-gadget.c:880-885 | At the start both controls hold the block that GET_MIN reports, and no format is current |
| UvcReplies.NegotiatesExactly | uvc_gadget_demo/uvc-gadget.c:789-819 | A DATA event stores the requested indices brought into range, the first listed interval not below the request or the last, and the size of that entry; the twelve other fields stay |
| UvcReplies.OnlyDataChanges | uvc_gadget_demo/uvc-gadget.c:830-878 | A run without DATA events changes nothing but the selection |
| UvcReplies.DemoStarts | uvc_gadget_demo/uvc-gadget.c:67-95 | With the program's tables both controls start with 640 by 480 YUYV, interval 666666 and size 614400 |
| UvcReplies.DemoOffers | uvc_gadget_demo/uvc-gadget.c:698-703 | With them GET_MIN reports that block, and GET_MAX format 2, frame 2 and interval 50000000 |
| UvcReplies.DemoNegotiates | uvc_gadget_demo/uvc-gadget.c:789-819 | With them the 1280 by 720 YUYV frame is stored with size 1843200, whatever interval was asked for |
| WindowDecode.EndsExactly | jpeg_codec/jpeg_demo.c:1158-1251 | The loop ends exactly when the picture has a whole block along one of its sides and the window does not miss the corner on its way back, for every panel |
| WindowDecode.ViewsOnRamp | jpeg_codec/jpeg_demo.c:1222-1247 | Then after n turns the window stands at the n-th place of 0, 1, ..., k, k, ..., 1, 0, in the right direction, or the loop has ended |
| WindowDecode.TooSmallNeverTurns | jpeg_codec/jpeg_demo.c:1222-1247 | For a picture smaller than one block both ways the loop goes on for ever |
| WindowDecode.NarrowNeverEnds | jpeg_codec/jpeg_demo.c:1222-1247 | So it does when a panel shorter than a block makes the window step over the corner |
| WindowDecode.TurnAt | jpeg_codec/jpeg_demo.c:1222-1247 | One turn moves the window by a block and takes that back when it went too far, in unsigned 32-bit arithmetic |
| WindowDecode.TurnInNumbers | jpeg_codec/jpeg_demo.c:1222-1247 | The same for any window, field by field modulo 2^32; the loop ends on the way back at the left or the upper edge |
| WindowDecode.PathProperties | jpeg_codec/jpeg_demo.c:1158-1251 | The way back mirrors the way out, the window keeps the panel's size, and all windows lie inside the picture exactly when the panel fits |
| WindowDecode.FurthestTouchesTheEdge | jpeg_codec/jpeg_demo.c:1240-1247 | When the panel fits, k is the smaller difference in blocks and the furthest window touches the edge |
| WindowDecode.PathInNumbers | jpeg_codec/jpeg_demo.c:1222-1247 | When the panel fits, window number i stands at block i of the diagonal on the way out, and at block 2k + 1 - i on the way back |
| WindowDecode.DecodeParam.Slide | jpeg_codec/jpeg_demo.c:1222-1247 | What follows a decode is one turn, in unsigned 32-bit arithmetic |
| WindowDecode.DecodeParam.DecodeWindows | jpeg_codec/jpeg_demo.c:1158-1251 | The loop terminates, having decoded exactly the windows of the path: 2(k + 1) of them |
| ColorConvert.CoefficientsAreRounded | jpeg_codec/jpeg_demo.c:1819-1829 | The integer coefficients are the scaled factors rounded, whatever the evaluation loses up to three hundredths |
| ColorConvert.ExpandRoundTrip | jpeg_codec/jpeg_demo.c:1850-1858 | The three components determine the pixel |
| ColorConvert.ExpandReachesBothEnds | jpeg_codec/jpeg_demo.c:1850-1858 | A component is 0 or 255 exactly when its field is all zeros or all ones |
| ColorConvert.ComponentsScale | jpeg_codec/jpeg_demo.c:1850-1858 | A component is its field times 33/4, or 65/16 for green, rounded down |
| ColorConvert.ComponentsAreStretched | jpeg_codec/jpeg_demo.c:1850-1858 | So it is less than one unit away from the field times 255/31, or 255/63 for green |
| ColorConvert.ComponentsGrow | jpeg_codec/jpeg_demo.c:1850-1858 | Of two pixels the one with the greater field has the greater component, and conversely |
| ColorConvert.SumsFitAByte | jpeg_codec/jpeg_demo.c:1860-1862 | Every component is between 0 and 255 before it is cut to a byte |
| ColorConvert.ComponentsAreRounded | jpeg_codec/jpeg_demo.c:1860-1862 | Every component is its weighted sum rounded, ties up for luma and down for chroma, which determines it |
| ColorConvert.LeastBlueIsNeutral | jpeg_codec/jpeg_demo.c:1825 | The colour (0, 0, 1) gives a Cb of 128 |
| ColorConvert.ComponentsAreAccurate | jpeg_codec/jpeg_demo.c:1819-1829 | With the exact factors the error stays below 0.502 |
| ColorConvert.PixelsAreAccurate | jpeg_codec/jpeg_demo.c:1860-1874 | The three bytes of a pixel against the exact factors of its components, to 0.502 |
| ColorConvert.PixelExamples | jpeg_codec/jpeg_demo.c:1850-1874 | Grey in the middle, red, green and blue in numbers |
| ColorConvert.GreyIsNeutral | jpeg_codec/jpeg_demo.c:1860-1862 | Grey gives 128 for both colour differences, and its own level |
| PlanarYuv.Tables.constructor | jpeg_codec/jpeg_demo.c:65-73 | Nine separate tables of 256 entries |
| PlanarYuv.Tables.InitColorTable | jpeg_codec/jpeg_demo.c:1801-1831 | Every entry of the nine tables |
| PlanarYuv.Tables.Unpack | jpeg_codec/jpeg_demo.c:1850-1858 | The components of a pixel, by shifting it down step by step |
| PlanarYuv.Tables.ConvertPair | jpeg_codec/jpeg_demo.c:1850-1874 | Two luma bytes, and the chroma of the first pixel |
| PlanarYuv.Tables.Store | jpeg_codec/jpeg_demo.c:1876-1880 | The four bytes of a pair at their places, and one more in the tally for each of the four writes |
| PlanarYuv.Tables.ConvertAt | jpeg_codec/jpeg_demo.c:1850-1880 | A pair, read and stored |
| PlanarYuv.Tables.ConvertRow | jpeg_codec/jpeg_demo.c:1848-1882 | After a row of any width below 65535 the planes and the tally have got as far as they should |
| PlanarYuv.Tables.Convert | jpeg_codec/jpeg_demo.c:1833-1885 | For every such width, every byte of the three planes in the end and the number of writes; nothing behind the planes changed |
| PlanarYuv.OnceExactly | jpeg_codec/jpeg_demo.c:1846-1883 | Every byte is written exactly once exactly when the width is even, or there are no rows |
| PlanarYuv.EvenWidthPlanes | jpeg_codec/jpeg_demo.c:1876-1880 | With an even width every byte is the component of its pixel, chroma that of the first of the pair |
| PlanarYuv.OddWidthPlanes | jpeg_codec/jpeg_demo.c:1876-1880 | With an odd width that holds except for the first byte of the second plane and, with an odd number of pixels, of the third |
| PlanarYuv.PairSource | jpeg_codec/jpeg_demo.c:1850-1880 | The pair at a column takes its chroma from its first pixel, in even and in odd rows of an odd width |
| PlanarYuv.RowEndsExactly | jpeg_codec/jpeg_demo.c:1848 | The 16-bit column counter gets to the end of a row exactly when the width is below 65535 |
| OsdWalk.WalkRow | osd/osd_demo.c:570-576 | One row of a block, for any size: the constant is added at consecutive positions, each counted |
| OsdWalk.WalkBlock | osd/osd_demo.c:568-578 | One block, row by row, with the pointer at its end |
| OsdWalk.LeaveBlock | osd/osd_demo.c:579-585 | The pointer moves to where the next block begins |
| OsdWalk.Pass | osd/osd_demo.c:564-588 | One pass over a picture of any size: every pixel of the memory holds what it was and the constant as often as it was counted, the counts add up to the number of steps, and where the sizes divide the counts are 1 in the picture and 0 elsewhere |
| OsdWalk.BlockBeginIs | osd/osd_demo.c:577-585 | Where the sizes divide, the pointer arithmetic leads to the corner of each block |
| OsdWalk.PositionIs | osd/osd_demo.c:568-585 | ... and stands on the pixel of the block's row and column |
| OsdWalk.DividingStaysInside | osd/osd_demo.c:564-588 | ... so the walk stays in the picture |
| OsdWalk.CanLeaveThePicture | osd/osd_demo.c:579-582 | For 6 by 400 pixels the second block begins 99 places before the first pixel, and for 9 by 7 pixels 6 places |
| OsdWalk.RowsDrift | osd/osd_demo.c:568-577 | Where the width is no multiple of 5, each row of a block begins one pixel further left than the row above |
| OsdWalk.NextBlockBegins | osd/osd_demo.c:579-585 | Where the next block begins, for any size, with the divisions in the program's order |
| OsdWalk.WalkEnds | osd/osd_demo.c:566-588 | Where the sizes divide, the blocks cover the picture, each pixel once |
| OsdWalk.OnceExactly | osd/osd_demo.c:564-588 | A pass changes every pixel exactly once exactly when the sizes divide, or there is no pixel |
| OsdWalk.PassChangesAll | osd/osd_demo.c:572-574 | Where the sizes divide, a pass adds its constant to every pixel, modulo 2^32, and to nothing else |
| OsdWalk.Demo | osd/osd_demo.c:561-592 | The two passes; where the sizes divide the first adds 0x80000000 to every pixel, the second 0x70000000, modulo 2^32 |

## Left out

- Device access: `open`, `ioctl`, `mmap`, `select`, `read` and `write`, and what fails in them. Device results and events are inputs.
- Printed messages, and the file names and command lines of the programs.
- `aes/aes_cryptodev.cpp`: the kernel's cipher; `DemoRound` models the software half of the comparison in `aes/main.cpp`.
- Timing and other properties of AES that do not concern its results.
- The clock and the formatting of the date in `create_simple_EXIF`: the nineteen characters are a parameter.
- `videoin_HW/exif.c`: a copy of `jpeg_codec/exif.c`.
- The part of `jpeg_resize` that asks for sizes, scales and encodes: the engine's outputs are inputs of the model. A copy of the decoded image onto itself is taken to be exact.
- What the program does after an eleventh application segment, where it writes past its tables.
- JpegResize.Resize: the buffer is taken to be larger by one piece than the limit that the program checks, because it checks after reading; and nothing is stated for a source with more than ten segments.
- JpegHeaderProofs.ScanHeader: a segment that the scanner does not know is taken to hold no 0xFF, because it is read byte by byte; a 0xFF in it may be taken for any marker.
- Which value `width` and `height` have when no size was found.
- `uvc_video_set_format` and the streaming of pictures: the state that negotiation keeps is modelled, its use is not.
- UvcNegotiation.Filled: the padding bytes of a response after its block are not modelled.
- WindowDecode.DecodeParam.DecodeWindows: asks for sizes on which the loop ends; `EndsExactly` says which those are.
- PlanarYuv.Tables.Convert: asks for a width on which the loops end, which `RowEndsExactly` determines; for fewer than 2^31 pixels, because the program multiplies in `int`; and with an odd width for the pixel behind the picture to be readable, because the program reads it.
- ColorConvert.CoefficientsAreRounded: the floating-point evaluation enters as an error of up to three hundredths, not bit by bit.
- OsdWalk.Demo: asks for sizes whose products fit 32 bits and for memory wherever the walk goes, which `DividingStaysInside` shows to be the picture when the sizes divide; the pause between blocks is not modelled.
- `osd/osd_demo.c`, `jpeg_codec/jpeg_demo.c` and `uvc_gadget_demo/uvc-gadget.c` outside the cited lines: menus, drawing commands and buffer set-up.
