# CPP_Utilities core, modelled in Dafny

This project models the file-access and string-handling core of the C++
utility library CPP_Utilities:

- **`ABigBinaryFile`** (`block_cache.dfy`). It reads a large file through a
  cache of at most `maxBlocks` blocks of `blockSize` bytes. The model covers:
  - the block-number → slot map, the load history (oldest first) and the
    free-slot flags;
  - FIFO eviction;
  - the "current block" fast path of `operator[]`;
  - `Preload`, `CopyBlock_F`, `CopyToBlob`, `LastBlockSize`;
  - the modification-time check (`FileCheck`), `DataReset` and `Reset`.

  The file is a value, `FileState`, with a modification time. Its contents
  `disk` are passed to every read.
- **`ABinaryFile`** (`binary_file.dfy`). This is the in-memory blob: the byte
  subscript and the 16/32/64-bit window reads. Their bounds tests use 64-bit
  unsigned arithmetic.
- **`ATextFile`** (`text_file.dfy`). It splits a whole buffer into lines for
  the CR, LF or CR LF style, using the scan of `RetrieveLines`. It also models
  `LineCount`, `operator[]` and `CString_F`.
- **`ABigTextFile`** (`big_text_file.dfy`). It scans the file through the
  block cache for line-feed positions. Lines are then read on demand into a
  FIFO-bounded line cache (`AddToHistory`). The model also covers `Purge`,
  `Refresh`, `AllLines` and `CString_F`.
- **`StringStuff`** (`string_stuff.dfy`). This covers:
  - split and join, and the between-markers search;
  - leading and trailing trims, character-set filters and replacement;
  - counting, find-from-back and before-marker;
  - collapsing consecutive characters;
  - ASCII case folding.
- **`PathClass`** (`path_class.dfy`). A path is a string with a directory
  marker. The model covers:
  - equality up to a trailing marker;
  - appending and removing the marker;
  - converting and swapping markers;
  - adding and prepending components, the last component and the component
    list;
  - suffixes.
- **`CPosNeg`** (`pos_neg.dfy`). These are the three sign objects and their
  operator algebra, checked against the tables written in the header.
- **`MultiString`** (`multi_string.dfy`). A string set matched either exactly
  or ignoring case. It is kept in the set's iteration order, because removal
  ignoring case erases the first match in that order.
- **`Converters`** (`converters.dfy`). Vector/set/map conversions.
- **`FlagUtils`** (`flag_utilities.dfy`). Bit flags in a `uint16`.

Several support modules are shared by the rest:

- `Wrappers` holds `Option` and `Result`.
- `Seqs` holds search and join on sequences.
- `StringOrder` is the lexicographic order of `std::string`. It orders the
  iteration of `std::set<std::string>` and of `std::map<std::string, …>`.

Exceptions become `Err` values, and the error cases are modelled with the
conditions the code tests. Where the code and its comments disagree, the
model follows the code. Those cases are listed at the end of "Left out".

## Model

| member | source | states |
|---|---|---|
| BinaryFile.ByteAt | CPP-Utilities/CPP-Utilities/ABinaryFile.cpp:163-172 | the subscript raises exactly when `pos` is at or past the size; otherwise it yields the byte at `pos` |
| BinaryFile.Window | CPP-Utilities/CPP-Utilities/ABinaryFile.cpp:176-213 | the bounds test shared by the multi-byte reads: without 64-bit wrap-around it fails exactly when the last byte lies past the end; a read that succeeds is the `width` bytes starting at `pos` |
| BinaryFile.B16 | CPP-Utilities/CPP-Utilities/ABinaryFile.cpp:176-185 | succeeds exactly when `pos + 1` is inside the blob (short of wrap-around); yields the two bytes at `pos` |
| BinaryFile.B32 | CPP-Utilities/CPP-Utilities/ABinaryFile.cpp:190-199 | succeeds exactly when `pos + 3` is inside the blob; yields the four bytes at `pos` |
| BinaryFile.B64 | CPP-Utilities/CPP-Utilities/ABinaryFile.cpp:204-213 | succeeds exactly when `pos + 7` is inside the blob; yields the eight bytes at `pos` |
| BinaryFile.B64WrapsNearTop | CPP-Utilities/CPP-Utilities/ABinaryFile.cpp:205 | at position 2^64 - 1, `pos + 7` wraps, so the guard passes on any blob longer than six bytes although the read lies past the end |
| BinaryFile.Load | CPP-Utilities/CPP-Utilities/ABinaryFile.cpp:29-94 | the path and descriptor constructors: a failing `stat` or open raises "Open error", a non-regular entry "Not a file", and an empty regular file "Read error", since reading one item of zero bytes reads none; otherwise the blob is the whole file |
| BlockCache.ReadBlockContents | CPP-Utilities/CPP-Utilities/ABinaryFile.cpp:576-581 | loading block `b` reads the `blockSize` bytes from `b * blockSize`, or only those up to the end of the file when fewer remain |
| BlockCache.AddrMapKeys | CPP-Utilities/CPP-Utilities/ABinaryFile.hpp:137-144 | `blockNumAddrMap` has exactly the blocks of `blkNumberHistory` as keys, and never more than `maxBlocks` |
| BlockCache.AddrMapInjective | CPP-Utilities/CPP-Utilities/ABinaryFile.hpp:137-138 | two different resident blocks never share a slot of the block array |
| BlockCache.InUseMatchesMap | CPP-Utilities/CPP-Utilities/ABinaryFile.hpp:143-144 | a slot is flagged in use in `freeSections` exactly when some resident block maps to it |
| BlockCache.LoadedBlocks | CPP-Utilities/CPP-Utilities/ABinaryFile.hpp:219-222 | the loaded-block list holds exactly the blocks for which `BlockIsLoaded` holds (the history), at most `maxBlocks` of them |
| BlockCache.DataReset | CPP-Utilities/CPP-Utilities/ABinaryFile.cpp:262-276 | drops every resident block and the current block, frees every slot, and keeps the file's size, geometry and last check time |
| BlockCache.FileCheck | CPP-Utilities/CPP-Utilities/ABinaryFile.cpp:280-327 | a missing file or a non-regular file raises; otherwise the first check records the time, a later modification time resets the cache, and the size and the rounded-up block count are taken from the file |
| BlockCache.Reset | CPP-Utilities/CPP-Utilities/ABinaryFile.cpp:750-755 | leaves no resident block and re-reads the file's size; for a regular file the cache then agrees with the file's contents |
| BlockCache.Create | CPP-Utilities/CPP-Utilities/ABinaryFile.cpp:361-387 | zero `maxBlocks` or a failing file check raises, each with its own error; otherwise the cache is empty, sized from the file and coherent with it |
| BlockCache.FirstFree | CPP-Utilities/CPP-Utilities/ABinaryFile.cpp:572-575 | the search for the first `false` in `freeSections`: every earlier slot is in use, and the one found (if any) is free |
| BlockCache.FreeSlotExists | CPP-Utilities/CPP-Utilities/ABinaryFile.cpp:572-573 | when fewer than `maxBlocks` blocks are resident the search finds a free slot, so the code's assertion holds |
| BlockCache.Evict | CPP-Utilities/CPP-Utilities/ABinaryFile.cpp:555-570 | the oldest block leaves the history and the map, its slot is freed, and every other resident block keeps its slot and data |
| BlockCache.Record | CPP-Utilities/CPP-Utilities/ABinaryFile.cpp:587-589 | the new block is appended to the history and mapped to its slot; the others keep theirs |
| BlockCache.MakeRoom | CPP-Utilities/CPP-Utilities/ABinaryFile.cpp:555-570 | with the cache full, the oldest block goes; afterwards there is room for one more, and the survivors keep their slots |
| BlockCache.FillSlot | CPP-Utilities/CPP-Utilities/ABinaryFile.cpp:572-589 | a non-resident block is read into the first free slot and recorded; a short read of any but the last block raises |
| BlockCache.LoadBlock | CPP-Utilities/CPP-Utilities/ABinaryFile.cpp:546-594 | a resident block is left alone; otherwise the oldest block is evicted when full, then the block is read and recorded, and a short read of any but the last block raises; other resident blocks keep their slots and bytes, and the file size and current block are not touched |
| BlockCache.Preload | CPP-Utilities/CPP-Utilities/ABinaryFile.cpp:598-603 | a block number past the block count does nothing; any other block is loaded, and the current-block fast path is not updated |
| BlockCache.ByteAt | CPP-Utilities/CPP-Utilities/ABinaryFile.cpp:608-644 | raises OutOfRange exactly when `pos` is at or past the size; reads through the fast path when `pos` is in the current block, otherwise loads that block and makes it current |
| BlockCache.LastBlockSize | CPP-Utilities/CPP-Utilities/ABinaryFile.cpp:662-670 | the size modulo the block size, always below the block size, hence 0 when the size is an exact multiple |
| BlockCache.CopyBlock | CPP-Utilities/CPP-Utilities/ABinaryFile.cpp:705-725 | a bad block number raises; otherwise the block is loaded and a `blockSize` copy is returned, of which only `dataSize % blockSize` bytes are filled for the last block |
| BlockCache.CopyToBlob | CPP-Utilities/CPP-Utilities/ABinaryFile.cpp:679-701 | a bad block number raises; a resident block copies `min(size, blockSize)` bytes, clipped to `dataSize % blockSize` on the last block; a non-resident block falls through to the stream |
| BlockCache.ByteInBlock | CPP-Utilities/CPP-Utilities/ABinaryFile.cpp:615-616 | the block number `pos / blockSize` and offset `pos % blockSize` name the byte at `pos` in the block read from the file |
| BlockCache.CoherentLoad | CPP-Utilities/CPP-Utilities/ABinaryFile.cpp:546-594 | when every slot holds its block's bytes, loading any block within the count succeeds and keeps that true |
| BlockCache.CoherentByteAt | CPP-Utilities/CPP-Utilities/ABinaryFile.hpp:189-193 | over a cache coherent with the file, the subscript yields the file's byte, or OutOfRange past the end, and stays coherent |
| BlockCache.ReadHistory | CPP-Utilities/CPP-Utilities/ABinaryFile.cpp:623-643 | a read of a resident block leaves the history alone; a read of another block evicts the oldest when full and appends that block |
| BlockCache.ReadAll | CPP-Utilities/CPP-Utilities/ABinaryFile.cpp:608-644 | a series of subscripts keeps the cache valid and its geometry unchanged, with one result per position read |
| BlockCache.OnlyReadsAgree | CPP-Utilities/CPP-Utilities/ABinaryFile.cpp:608-644 | over a coherent cache, any series of in-range subscripts yields exactly the file's bytes at those positions |
| BlockCache.FifoTwo | CPP-Utilities/CPP-Utilities/ABinaryFile.hpp:140-141 | with two slots, reading blocks 0 and 1 leaves both resident, oldest first |
| BlockCache.FifoFill | CPP-Utilities/CPP-Utilities/ABinaryFile.cpp:555-570 | with two slots, reading blocks 0, 1 and 2 evicts block 0, the oldest |
| BlockCache.FifoEviction | CPP-Utilities/CPP-Utilities/ABinaryFile.cpp:555-570 | after that, the history is blocks 1 and 2 and block 0 is no longer loaded |
| BlockCache.PreloadStalesFastPath | CPP-Utilities/CPP-Utilities/ABinaryFile.cpp:598-603 | with one slot, preloading another block reuses the slot the fast path points at, so the next subscript in the old current block returns the new block's byte at that offset |
| BlockCache.StaleFastPathByte | CPP-Utilities/CPP-Utilities/ABinaryFile.cpp:623-629 | the fast path reads the current slot whatever block now occupies it |
| BlockCache.BlockSlotByte | CPP-Utilities/CPP-Utilities/ABinaryFile.cpp:581 | a resident block's slot holds the file's bytes of that block at each offset inside the file |
| BlockCache.PreloadStaleExample | CPP-Utilities/CPP-Utilities/ABinaryFile.cpp:598-629 | on a 512-byte file with one 256-byte slot, reading byte 0, preloading block 1 and reading byte 0 again returns byte 256 |
| BlockCache.CoherentCopyBlock | CPP-Utilities/CPP-Utilities/ABinaryFile.cpp:705-725 | over a coherent cache, the copy holds the block's bytes followed by zeros, except that the last block is cut to `dataSize % blockSize` bytes |
| BlockCache.LastBlockSpan | CPP-Utilities/CPP-Utilities/ABinaryFile.cpp:316-317 | the last block, `blockCount - 1`, is the one holding the final byte, and it reads `blockSize` bytes when the size is an exact multiple, `size % blockSize` otherwise |
| BlockCache.LastBlockLength | CPP-Utilities/CPP-Utilities/ABinaryFile.cpp:317 | the bytes past the start of the last block are the block size on an exact multiple, the remainder otherwise |
| BlockCache.ExactMultipleLastBlockZeros | CPP-Utilities/CPP-Utilities/ABinaryFile.cpp:716-718 | when the size is a multiple of the block size, copying the full last block yields only zeros |
| BlockCache.CoherentCopyToBlob | CPP-Utilities/CPP-Utilities/ABinaryFile.cpp:686-697 | a resident block copied to a blob gives its file bytes, up to the clipped length |
| BlockCache.LaterFileCheckIsCoherent | CPP-Utilities/CPP-Utilities/ABinaryFile.cpp:305-317 | a file check that sees a newer modification time empties the cache, which then agrees with the new contents |
| TextFile.Terminator | CPP-Utilities/CPP-Utilities/ATextFile.hpp:33-34 | CR for classic Mac, LF for Unix, CR LF (and only that, of two bytes) for Windows |
| TextFile.LineFeedAt | CPP-Utilities/CPP-Utilities/ATextFile.cpp:80-103 | reports a terminator exactly where one occurs; for CR LF the index advances to the LF; never past the end |
| TextFile.Pieces | CPP-Utilities/CPP-Utilities/ATextFile.cpp:105-127 | the scan of a buffer yields at least one piece |
| TextFile.PiecesJoin | CPP-Utilities/CPP-Utilities/ATextFile.cpp:105-127 | joining the pieces with the terminator rebuilds the buffer |
| TextFile.PiecesFree | CPP-Utilities/CPP-Utilities/ATextFile.cpp:105-127 | no piece contains a terminator |
| TextFile.Lines | CPP-Utilities/CPP-Utilities/ATextFile.cpp:105-127 | there is always at least one line; an empty buffer has one empty line |
| TextFile.LinesFree | CPP-Utilities/CPP-Utilities/ATextFile.cpp:105-127 | no line contains a terminator |
| TextFile.LinesRoundTrip | CPP-Utilities/CPP-Utilities/ATextFile.cpp:105-127 | the lines joined by the terminator, plus one terminator when the buffer ends with one, rebuild the buffer |
| TextFile.LastPieceEmpty | CPP-Utilities/CPP-Utilities/ATextFile.cpp:122-124 | the final piece is empty exactly when the buffer ends right after a terminator |
| TextFile.EndsIffLastEmpty | CPP-Utilities/CPP-Utilities/ATextFile.cpp:122-124 | a non-empty buffer ends with a terminator exactly when its last piece is empty |
| TextFile.JoinDroppingLast | CPP-Utilities/CPP-Utilities/ATextFile.cpp:122-124 | dropping the empty last piece and appending the terminator keeps the join equal to the buffer |
| TextFile.ScannedTerminator | CPP-Utilities/CPP-Utilities/ATextFile.cpp:114-117 | a terminator closes the current line and starts an empty one |
| TextFile.ScannedByte | CPP-Utilities/CPP-Utilities/ATextFile.cpp:119-121 | any other byte is appended to the current line |
| TextFile.ScannedEnd | CPP-Utilities/CPP-Utilities/ATextFile.cpp:124-126 | at the end, the pending line is added exactly when the last byte was not a terminator, which gives the lines of the buffer |
| TextFile.ReadStep | CPP-Utilities/CPP-Utilities/ATextFile.cpp:112-122 | one pass of the loop body advances the index and keeps the scan invariant, with `lastNotLF` true exactly when a line is pending |
| TextFile.RetrieveLines | CPP-Utilities/CPP-Utilities/ATextFile.cpp:105-127 | the loop produces exactly the buffer's lines |
| TextFile.Open | CPP-Utilities/CPP-Utilities/ATextFile.cpp:32-37 | construction from a memory block: the file keeps the style, has at least one line, and its lines rebuild the buffer |
| TextFile.FromFile | CPP-Utilities/CPP-Utilities/ATextFile.cpp:18-30 | construction from a path or descriptor raises the binary loader's three errors; a non-empty regular file becomes lines in the given style that rebuild its contents |
| TextFile.LineCount | CPP-Utilities/CPP-Utilities/ATextFile.cpp:129-131 | the number of lines held |
| TextFile.Line | CPP-Utilities/CPP-Utilities/ATextFile.cpp:133-140 | raises exactly for a line number at or past the count; otherwise yields that line |
| TextFile.CString | CPP-Utilities/CPP-Utilities/ATextFile.cpp:150-161 | null exactly past the count; otherwise the line followed by one zero byte |
| TextFile.LoneCarriageReturnKept | CPP-Utilities/CPP-Utilities/ATextFile.cpp:89-101 | in CR LF style a CR not followed by LF stays in the line |
| TextFile.TrailingTerminatorDropped | CPP-Utilities/CPP-Utilities/ATextFile.cpp:122-126 | a final terminator adds no empty line: "a\nb\n" has two lines |
| BigTextFile.TerminatorsShape | CPP-Utilities/CPP-Utilities/ATextFile.cpp:272-281 | the scanned positions ascend and each is the last byte of a terminator (for CR LF, the LF) |
| BigTextFile.PiecesBetweenTerminators | CPP-Utilities/CPP-Utilities/ATextFile.cpp:272-281 | the text-file pieces lie exactly between consecutive scanned positions |
| BigTextFile.ReadLineFeed | CPP-Utilities/CPP-Utilities/ATextFile.cpp:319-346 | the test reads through the block cache, stays inside the file, and moves the index only for a CR LF pair |
| BigTextFile.ReadLineFeedCoherent | CPP-Utilities/CPP-Utilities/ATextFile.cpp:319-346 | over a coherent cache it agrees with the in-memory text file's test, or raises OutOfRange past the end |
| BigTextFile.WindowsPairCoherent | CPP-Utilities/CPP-Utilities/ATextFile.cpp:332-343 | a CR before the last byte is a terminator exactly when the next byte is LF, and then the index moves onto the LF |
| BigTextFile.Sub64 | CPP-Utilities/CPP-Utilities/ATextFile.cpp:284 | `Size() - 2` on `uint64` is exact for sizes of at least 2 and wraps to 2^64 - 1 or below otherwise |
| BigTextFile.ScanPositions | CPP-Utilities/CPP-Utilities/ATextFile.cpp:272-281 | over a coherent cache the loop succeeds and collects 0 followed by every terminator position |
| BigTextFile.ClosingTest | CPP-Utilities/CPP-Utilities/ATextFile.cpp:283-291 | the closing test raises exactly for a one-byte CR LF file; otherwise it reports whether the file ends with a terminator |
| BigTextFile.ClosingLineFeed | CPP-Utilities/CPP-Utilities/ATextFile.cpp:283-291 | the same on the file's bytes: the index tested lies in the file except in that one case |
| BigTextFile.RetrieveLinePositions | CPP-Utilities/CPP-Utilities/ATextFile.cpp:265-297 | an empty file has no positions; otherwise the positions are 0 and every terminator, `lastIsLF` says whether the file ends with one, and only a one-byte CR LF file raises |
| BigTextFile.Open | CPP-Utilities/CPP-Utilities/ATextFile.cpp:175-197 | construction succeeds exactly when the block cache opens and the scan does not raise; the result has an empty line cache and the scanned layout |
| BigTextFile.AddToHistory | CPP-Utilities/CPP-Utilities/ATextFile.cpp:348-373 | nothing while `doNotUpdate`; otherwise the line is stored and appended last, the oldest line goes when full, no other cached line changes, and a zero capacity reaches the erase from an empty history, reported as `EmptyHistory` |
| BigTextFile.ReadByte | CPP-Utilities/CPP-Utilities/ATextFile.cpp:405-407 | one byte read through the cache: the file's byte, or OutOfRange past the end |
| BigTextFile.ReadSpan | CPP-Utilities/CPP-Utilities/ATextFile.cpp:404-407 | the read loop yields the file's bytes of the span, or raises exactly when the span runs past the end |
| BigTextFile.AddKeepsSound | CPP-Utilities/CPP-Utilities/ATextFile.cpp:409 | storing a line just read keeps every cached line equal to a fresh read |
| BigTextFile.Get | CPP-Utilities/CPP-Utilities/ATextFile.cpp:375-414 | raises NoSuchLine exactly past the count; a cached line is returned without reading; otherwise the line's span is read and cached, and over a coherent cache the result is what reading the file gives |
| BigTextFile.ReadUncached | CPP-Utilities/CPP-Utilities/ATextFile.cpp:404-413 | the read half of the subscript: the span read and passed to `AddToHistory` |
| BigTextFile.CString | CPP-Utilities/CPP-Utilities/ATextFile.cpp:430-441 | the subscript's line followed by one zero byte, with the subscript's errors; the capacity and `doNotUpdate` are kept, and a line read while updates are allowed is cached afterwards |
| BigTextFile.Purge | CPP-Utilities/CPP-Utilities/ATextFile.cpp:299-305 | empties the line cache and history and changes nothing else |
| BigTextFile.Refresh | CPP-Utilities/CPP-Utilities/ATextFile.cpp:307-312 | empties the line cache and rescans the positions from the file as it is now; the style, capacity, `doNotUpdate` and file geometry are kept, so after a successful rescan the layout is the file's scanned layout |
| BigTextFile.AllLines | CPP-Utilities/CPP-Utilities/ATextFile.cpp:416-427 | yields one line per line number, leaves the line cache as it was, and leaves `doNotUpdate` raised only after an error |
| BigTextFile.EndsWithLastPiece | CPP-Utilities/CPP-Utilities/ATextFile.hpp:105-107 | `lastIsLF` holds exactly when the text file's last piece is empty |
| BigTextFile.PieceRead | CPP-Utilities/CPP-Utilities/ATextFile.cpp:389-407 | for a one-byte terminator, line `i` read through the positions is the text file's piece `i` |
| BigTextFile.LinesMatchText | CPP-Utilities/CPP-Utilities/ATextFile.cpp:314-317 | for LF and CR files, each line the in-memory text file has is read back the same; a file ending with a terminator reports two lines more than it has |
| BigTextFile.SurplusLinesPastPositions | CPP-Utilities/CPP-Utilities/ATextFile.cpp:389-400 | those two surplus lines index past the positions vector |
| BigTextFile.WindowsLinesShifted | CPP-Utilities/CPP-Utilities/ATextFile.cpp:389-402 | for CR LF the positions hold the LF and a line starts two bytes after it: "a\r\nbc" reads as "a\r" and "c" |
| BigTextFile.HistoryIsFifo | CPP-Utilities/CPP-Utilities/ATextFile.cpp:354-371 | with room for two lines, caching lines 0, 1 and 2 leaves lines 1 and 2 |
| BigTextFile.FirstTwoLines | CPP-Utilities/CPP-Utilities/ATextFile.cpp:369-370 | caching lines 0 and 1 with room for two keeps both, in order |
| BigTextFile.AddToHistoryEffect | CPP-Utilities/CPP-Utilities/ATextFile.cpp:360-371 | the new history and cache, in terms of the old, when the call does not raise |
| StringStuff.Split | CPP-Utilities/CPP-Utilities/StringStuff.cpp:125-142 | an empty delimiter gives the string alone; an empty string gives no pieces; otherwise at least one piece |
| StringStuff.SplitJoin | CPP-Utilities/CPP-Utilities/StringStuff.cpp:125-155 | joining the pieces with the delimiter rebuilds the string, and no piece contains the delimiter |
| StringStuff.JoinSplit | CPP-Utilities/CPP-Utilities/StringStuff.cpp:125-155 | for a one-character delimiter, splitting a join of delimiter-free pieces gives the pieces back |
| StringStuff.JoinStrings | CPP-Utilities/CPP-Utilities/StringStuff.cpp:144-155 | `Join` starts with the first piece, followed by the separator and the join of the rest |
| StringStuff.StringBetween | CPP-Utilities/CPP-Utilities/StringStuff.cpp:33-72 | with guards failing, no positions; otherwise an opening marker that occurs is always found, at its first occurrence, then the first closing marker after it, and the text between them, or to the end when the closing marker is empty |
| StringStuff.BetweenFindsEnclosed | CPP-Utilities/CPP-Utilities/StringStuff.cpp:33-72 | when both markers occur in order the closing one is found |
| StringStuff.RemoveLeading | CPP-Utilities/CPP-Utilities/StringStuff.cpp:157-169 | removes the longest prefix of characters in the set and no more |
| StringStuff.RemoveTrailing | CPP-Utilities/CPP-Utilities/StringStuff.cpp:171-198 | removes the longest suffix of characters in the set; the one input the loop mishandles is a single trimmed character |
| StringStuff.TrimIsDefined | CPP-Utilities/CPP-Utilities/StringStuff.cpp:200-208 | trimming both ends never hits that case, and removes exactly the leading and trailing run |
| StringStuff.OnlyHasChars | CPP-Utilities/CPP-Utilities/StringStuff.cpp:210-240 | the empty string and empty set give fixed answers; otherwise every character is in the set (or, inverted, none is) |
| StringStuff.Keep | CPP-Utilities/CPP-Utilities/StringStuff.cpp:105-123 | keeps exactly the characters on the chosen side of the set, each with its count |
| StringStuff.KeepConcat | CPP-Utilities/CPP-Utilities/StringStuff.cpp:105-123 | filtering distributes over concatenation |
| StringStuff.RemoveFromSet | CPP-Utilities/CPP-Utilities/StringStuff.cpp:105-123 | the result holds only characters on the kept side, each as often as in the input |
| StringStuff.KeepCount | CPP-Utilities/CPP-Utilities/StringStuff.cpp:105-123 | removing set members shortens by the number of set members |
| StringStuff.Substitute | CPP-Utilities/CPP-Utilities/StringStuff.cpp:256-308 | each set member is replaced by the character, others kept, length kept |
| StringStuff.ReplaceAllChars | CPP-Utilities/CPP-Utilities/StringStuff.cpp:256-308 | a replacement inside the set is refused with -1; otherwise the count is the number of set members and they are replaced, or removed for a null replacement |
| StringStuff.CountOfChar | CPP-Utilities/CPP-Utilities/StringStuff.cpp:310-317 | the number of occurrences, 0 for the null character |
| StringStuff.LongestString | CPP-Utilities/CPP-Utilities/StringStuff.cpp:319-326 | the length is the maximum over the array (0 for none); the index stays at `npos` |
| StringStuff.ReplaceLoop | CPP-Utilities/CPP-Utilities/StringStuff.cpp:247-252 | when the loop ends, the text no longer contains the search string and the count has not gone down |
| StringStuff.ReplaceLoopFree | CPP-Utilities/CPP-Utilities/StringStuff.cpp:247-252 | a text without the search string comes back unchanged, with the count it started with |
| StringStuff.ReplaceLength | CPP-Utilities/CPP-Utilities/StringStuff.cpp:242-253 | each replacement changes the length by the difference of the two strings |
| StringStuff.ReplaceAll | CPP-Utilities/CPP-Utilities/StringStuff.cpp:242-253 | empty input or search string gives -1; a replacement containing the search string gives -2; otherwise the result no longer contains it, its length has changed by the count times the difference of the two strings, and a text without the search string comes back unchanged with count 0 |
| StringStuff.ReplaceOneChar | CPP-Utilities/CPP-Utilities/StringStuff.cpp:247-252 | with a one-character search string that the replacement does not contain, the loop gives the one-pass substitution `SubstChar` of every occurrence, and counts one per occurrence |
| StringStuff.ReplaceAllOneChar | CPP-Utilities/CPP-Utilities/StringStuff.cpp:242-253 | for a one-character search string absent from the replacement, the result is the one-pass substitution and the count is the number of occurrences (`CountIn`) |
| StringStuff.ReplaceAllOneCharRefused | CPP-Utilities/CPP-Utilities/StringStuff.cpp:243-244 | a one-character search string that occurs in the replacement is refused with -2, the text unchanged |
| StringStuff.ShrinkingReplaceEnds | CPP-Utilities/CPP-Utilities/StringStuff.cpp:242-253 | a replacement shorter than the search string always terminates |
| StringStuff.FindFromBack | CPP-Utilities/CPP-Utilities/StringStuff.cpp:328-338 | the text after the last occurrence of the character, the whole string when absent, empty for empty input or null |
| StringStuff.BeforeMarker | CPP-Utilities/CPP-Utilities/StringStuff.cpp:340-349 | the text before the last occurrence of the character (the character is absent from what follows it), or empty when it is absent |
| StringStuff.MarkerHalves | CPP-Utilities/CPP-Utilities/StringStuff.cpp:328-349 | when the character occurs, the text before its last occurrence, the character and the text after it rebuild the string |
| StringStuff.BeforeAndAfter | CPP-Utilities/CPP-Utilities/StringStuff.cpp:351-367 | nothing exactly when the divider is absent; with the first occurrence at the start, ("", whole string); at the last character of a longer string, (whole string, ""); elsewhere, the text before it and the text from one character past it, so for a one-character divider the divider-free prefix, the divider and the rest rebuild the string |
| StringStuff.RemoveIfLastChar | CPP-Utilities/CPP-Utilities/StringStuff.cpp:94-98 | drops the last character exactly when it is the given one |
| StringStuff.LastChar | CPP-Utilities/CPP-Utilities/StringStuff.cpp:100-103 | the last character, or null for an empty string |
| StringStuff.Collapse | CPP-Utilities/CPP-Utilities/StringStuff.cpp:500-509 | no two neighbours are equal, no character is added, and every character other than the starting one survives |
| StringStuff.CollapseRuns | CPP-Utilities/CPP-Utilities/StringStuff.cpp:500-509 | the input is a run of the starting character followed by the result with its k-th character repeated n[k] >= 1 times (`Expand`) |
| StringStuff.ReduceConsecutive | CPP-Utilities/CPP-Utilities/StringStuff.cpp:500-509 | no two neighbours are equal, the result does not start with 0, and exactly the characters of the input other than 0 occur in it |
| StringStuff.ReduceRuns | CPP-Utilities/CPP-Utilities/StringStuff.cpp:500-509 | the input is a run of 0 followed by the result with each character repeated at least once: each run became one character in place |
| StringStuff.ExpandUnique | CPP-Utilities/CPP-Utilities/StringStuff.cpp:500-509 | such a run decomposition is unique: the lead, the characters and the counts are fixed by the expanded text |
| StringStuff.ReduceDetermined | CPP-Utilities/CPP-Utilities/StringStuff.cpp:500-509 | any string with no equal neighbours and no leading 0 whose runs expand to the input is the result of `ReduceConsecutive` |
| StringStuff.CollapseFixed | CPP-Utilities/CPP-Utilities/StringStuff.cpp:500-509 | a string with no equal neighbours is left unchanged |
| StringStuff.ReduceIdempotent | CPP-Utilities/CPP-Utilities/StringStuff.cpp:500-509 | reducing twice is reducing once |
| StringStuff.CollapseChar | CPP-Utilities/CPP-Utilities/StringStuff.cpp:511-520 | the given character never follows itself in the result, and the result starts with it only when the current character differs |
| StringStuff.CollapseCharRuns | CPP-Utilities/CPP-Utilities/StringStuff.cpp:511-520 | the input is a run of the given character (dropped only when it is the current one), then the result with each given character standing for a run and every other character for itself |
| StringStuff.CollapseCharKeeps | CPP-Utilities/CPP-Utilities/StringStuff.cpp:511-520 | every other character is kept, in order |
| StringStuff.ReduceConsecutiveChar | CPP-Utilities/CPP-Utilities/StringStuff.cpp:511-520 | the given character never follows itself, every other character is kept in order, and the result starts with the given character only when it is not 0 |
| StringStuff.ReduceCharRuns | CPP-Utilities/CPP-Utilities/StringStuff.cpp:511-520 | each run of the given character became one copy in place and every other character stands for itself; a leading run is dropped only for 0 |
| StringStuff.ExpandCharUnique | CPP-Utilities/CPP-Utilities/StringStuff.cpp:511-520 | that decomposition is unique: the lead, the characters and the counts are fixed by the expanded text |
| StringStuff.ReduceCharDetermined | CPP-Utilities/CPP-Utilities/StringStuff.cpp:511-520 | any string meeting that decomposition of the input is the result of `ReduceConsecutiveChar` |
| StringStuff.ReduceExample | CPP-Utilities/CPP-Utilities/StringStuff.hpp:261 | "ABCCCDDE" becomes "ABCDE" |
| StringStuff.ReduceCharExample | CPP-Utilities/CPP-Utilities/StringStuff.hpp:265 | "A111BCD11E" reduced on '1' becomes "A1BCD1E" |
| StringStuff.Lower | CPP-Utilities/CPP-Utilities/StringStuff.cpp:82-86 | an ASCII capital maps to its small letter; anything else is unchanged; the result is never a capital |
| StringStuff.Lowercase | CPP-Utilities/CPP-Utilities/StringStuff.cpp:82-86 | lowers each character, length kept |
| StringStuff.EqualCaseInsenPointwise | CPP-Utilities/CPP-Utilities/StringStuff.cpp:74-80 | equal ignoring case exactly when of equal length and equal character by character once lowered |
| StringStuff.EqualCaseInsenExample | CPP-Utilities/CPP-Utilities/StringStuff.cpp:74-80 | "Read.ME" equals "rEAD.me", while "[" and "{" differ |
| PathClass.New | CPP-Utilities/CPP-Utilities/PathClass.cpp:14-35 | a null directory marker raises; otherwise the path and marker are kept |
| PathClass.EqualsMeansTrailingMarker | CPP-Utilities/CPP-Utilities/PathClass.cpp:49-68 | two paths are equal exactly when they match after one trailing marker is appended to the shorter; `!=` is its negation |
| PathClass.AppendDirMarker | CPP-Utilities/CPP-Utilities/PathClass.cpp:113-115 | the path ends with the marker afterwards, with at most one marker added, and compares equal to the original |
| PathClass.AppendDirMarkerIdempotent | CPP-Utilities/CPP-Utilities/PathClass.cpp:113-115 | appending twice is appending once |
| PathClass.RemoveDirMarker | CPP-Utilities/CPP-Utilities/PathClass.cpp:117-119 | removes one trailing marker when present, nothing otherwise |
| PathClass.RemoveUndoesAppend | CPP-Utilities/CPP-Utilities/PathClass.cpp:113-119 | removing after appending is removing alone |
| PathClass.ConvertDirMarkers | CPP-Utilities/CPP-Utilities/PathClass.cpp:121-129 | the old marker is replaced by the new one everywhere and the rest kept; a null new marker raises |
| PathClass.SwapDirMarkers | CPP-Utilities/CPP-Utilities/PathClass.cpp:131-140 | old and new markers change places; a null new marker raises |
| PathClass.ChangeDirMarker | CPP-Utilities/CPP-Utilities/PathClass.cpp:142-145 | only the marker changes; a null marker raises |
| PathClass.SwapInvolution | CPP-Utilities/CPP-Utilities/PathClass.cpp:131-140 | swapping to a marker and back restores the path |
| PathClass.ConvertBackWhenFresh | CPP-Utilities/CPP-Utilities/PathClass.cpp:121-129 | converting to a marker absent from the path and back restores it |
| PathClass.MarkerExamples | CPP-Utilities/CPP-Utilities/PathClass.hpp:80-90 | "A/B/C:s:3/D" converts to "A:B:C:s:3:D" and swaps to "A:B:C/s/3:D" |
| PathClass.AddPath | CPP-Utilities/CPP-Utilities/PathClass.cpp:178-193 | an empty component does nothing; on an empty path it becomes the path; otherwise they are joined with exactly one marker between them |
| PathClass.PrependPath | CPP-Utilities/CPP-Utilities/PathClass.cpp:157-176 | the same join with the component in front |
| PathClass.PrependMirrorsAdd | CPP-Utilities/CPP-Utilities/PathClass.cpp:157-193 | prepending a component is adding the path to that component |
| PathClass.AddPathKeepsLeadingMarker | CPP-Utilities/CPP-Utilities/PathClass.cpp:153-193 | adding a component does not change whether a non-empty path is relative |
| PathClass.AddThenRemoveLast | CPP-Utilities/CPP-Utilities/PathClass.cpp:178-201 | after adding a marker-free component, it is the last component, and removing it gives the path without a trailing marker |
| PathClass.LastComponent | CPP-Utilities/CPP-Utilities/PathClass.cpp:195-197 | the text after the last marker, or the whole path when there is none |
| PathClass.RemoveLastComponent | CPP-Utilities/CPP-Utilities/PathClass.cpp:199-201 | the text before the last marker, empty when there is none; with the marker and last component it rebuilds the path |
| PathClass.Components | CPP-Utilities/CPP-Utilities/PathClass.cpp:223-225 | the marker-free pieces whose join by the marker is the path; none for an empty path |
| PathClass.Component | CPP-Utilities/CPP-Utilities/PathClass.cpp:99-109 | raises exactly for an index past the component count; otherwise the component at that index, which is marker-free |
| PathClass.AddSuffix | CPP-Utilities/CPP-Utilities/PathClass.cpp:203-205 | the path followed by '.' and the suffix |
| PathClass.RemoveSuffix | CPP-Utilities/CPP-Utilities/PathClass.cpp:207-220 | a '.' marker raises; otherwise cuts at the last '.' when it lies in the last component, and leaves the path alone otherwise |
| PathClass.SuffixRoundTrip | CPP-Utilities/CPP-Utilities/PathClass.cpp:203-220 | removing a freshly added dot-free suffix restores the path |
| PathClass.SuffixExamples | CPP-Utilities/CPP-Utilities/PathClass.hpp:115-121 | "A/B/C/D.txt" loses ".txt", "A/B/C.txt/D" is unchanged, and a '.' marker raises |
| PosNeg.V | CPP-Utilities/CPP-Utilities/PosNeg.hpp:104-219 | +1, -1 or 0, its sign naming the object |
| PosNeg.Create | CPP-Utilities/CPP-Utilities/PosNeg.cpp:16-20 | the sign of the value |
| PosNeg.CreateOfV | CPP-Utilities/CPP-Utilities/PosNeg.cpp:16-20 | creating from a sign's value gives the sign back |
| PosNeg.Not | CPP-Utilities/CPP-Utilities/PosNeg.cpp:30-36 | negates the value and agrees with the negation table |
| PosNeg.NotInvolution | CPP-Utilities/CPP-Utilities/PosNeg.cpp:30-36 | negating twice gives the sign back |
| PosNeg.Mul | CPP-Utilities/CPP-Utilities/PosNeg.hpp:117-232 | the value is the product of the values and agrees with the product table |
| PosNeg.MulCommutative | CPP-Utilities/CPP-Utilities/PosNeg.hpp:280-283 | the product is commutative |
| PosNeg.Div | CPP-Utilities/CPP-Utilities/PosNeg.hpp:122-238 | dividing by Zero is nonsensical; otherwise the product, which times the divisor gives the dividend, agreeing with the division table |
| PosNeg.Add | CPP-Utilities/CPP-Utilities/PosNeg.hpp:128-241 | opposite non-zero signs are nonsensical; otherwise the sign of the sum of values, agreeing with the addition table |
| PosNeg.AddZeroIdentity | CPP-Utilities/CPP-Utilities/PosNeg.hpp:270-273 | Zero is the identity for addition |
| PosNeg.Sub | CPP-Utilities/CPP-Utilities/PosNeg.hpp:135-246 | equal non-zero signs are nonsensical; otherwise the sign of the difference, agreeing with the subtraction table |
| PosNeg.SubIsAddNot | CPP-Utilities/CPP-Utilities/PosNeg.hpp:270-278 | subtracting is adding the negation, failures included |
| PosNeg.Lt | CPP-Utilities/CPP-Utilities/PosNeg.hpp:144-255 | less-than on values, agreeing with its table |
| PosNeg.Gt | CPP-Utilities/CPP-Utilities/PosNeg.hpp:144-255 | greater-than on values, agreeing with its table |
| PosNeg.Eq | CPP-Utilities/CPP-Utilities/PosNeg.hpp:144-255 | equality of signs, agreeing with its table |
| PosNeg.Ne | CPP-Utilities/CPP-Utilities/PosNeg.hpp:144-255 | inequality of signs |
| PosNeg.OrderTrichotomy | CPP-Utilities/CPP-Utilities/PosNeg.hpp:294-307 | `>` is `<` reversed, and exactly one of `<`, `==`, `>` holds |
| PosNeg.Inc | CPP-Utilities/CPP-Utilities/PosNeg.hpp:151-259 | one step up, saturating at Positive |
| PosNeg.Dec | CPP-Utilities/CPP-Utilities/PosNeg.hpp:210-260 | one step down, saturating at Negative |
| PosNeg.IncDecMirror | CPP-Utilities/CPP-Utilities/PosNeg.cpp:22-28 | stepping down is the mirror of stepping up |
| PosNeg.Scale | CPP-Utilities/CPP-Utilities/PosNeg.hpp:141-249 | the member scalar product: the value, its negation or zero |
| PosNeg.MulValue | CPP-Utilities/CPP-Utilities/PosNeg.cpp:38-40 | the free scalar product equals the member one, and its sign is the product of the signs |
| PosNeg.DivValue | CPP-Utilities/CPP-Utilities/PosNeg.cpp:46-49 | nonsensical for Zero; otherwise exact division by +1 or -1, matching the scalar product |
| MultiString.Empty | CPP-Utilities/CPP-Utilities/MultiString.cpp:13-15 | an empty set with the given matching mode |
| MultiString.Single | CPP-Utilities/CPP-Utilities/MultiString.cpp:17-20 | the set of the one string |
| MultiString.SortedOf | CPP-Utilities/CPP-Utilities/MultiString.cpp:22-25 | the array's elements in ascending order, each once |
| MultiString.FromArray | CPP-Utilities/CPP-Utilities/MultiString.cpp:22-25 | the set of the array's elements; spellings that differ only in case are all kept, even when ignoring case is asked for |
| MultiString.FromSet | CPP-Utilities/CPP-Utilities/MultiString.cpp:27-30 | the given set |
| MultiString.SetCaseInsen | CPP-Utilities/CPP-Utilities/MultiString.cpp:37-39 | only the matching mode changes |
| MultiString.FirstMatch | CPP-Utilities/CPP-Utilities/MultiString.cpp:58-68 | the first element equal to the string ignoring case, none exactly when no element is |
| MultiString.Contains | CPP-Utilities/CPP-Utilities/MultiString.cpp:92-99 | exact membership, or ignoring case some element equal once both are lowered |
| MultiString.NotEquals | CPP-Utilities/CPP-Utilities/MultiString.cpp:88-90 | the negation of `==` |
| MultiString.SensitiveMatchIsInsensitiveMatch | CPP-Utilities/CPP-Utilities/MultiString.cpp:92-99 | an exact match is also a match ignoring case |
| MultiString.ContainsMonotone | CPP-Utilities/CPP-Utilities/MultiString.cpp:92-99 | a larger set never loses a match |
| MultiString.AddString | CPP-Utilities/CPP-Utilities/MultiString.cpp:42-44 | the string is inserted unless it already matches, and matches afterwards |
| MultiString.AddStrings | CPP-Utilities/CPP-Utilities/MultiString.cpp:42-56 | the set only grows, by array elements only, and every element matches afterwards; ignoring case, no added element equals any other element once lowered |
| MultiString.AddStringsFromSet | CPP-Utilities/CPP-Utilities/MultiString.cpp:42-56 | the same for a set argument |
| MultiString.RemoveString | CPP-Utilities/CPP-Utilities/MultiString.cpp:58-68 | exactly, the string is erased; ignoring case, only the first matching element in set order is erased, so the set loses exactly one matching element, or nothing when none matches |
| MultiString.RemoveStrings | CPP-Utilities/CPP-Utilities/MultiString.cpp:58-80 | the set only shrinks; matching exactly, it loses exactly the array's elements; ignoring case, an element no item matches stays, and an element that is the only match of some item goes |
| MultiString.RemoveStringsFromSet | CPP-Utilities/CPP-Utilities/MultiString.cpp:58-80 | the same for a set argument |
| MultiString.AddThenRemove | CPP-Utilities/CPP-Utilities/MultiString.cpp:42-68 | matching exactly, removing a string just added restores the set |
| MultiString.FromArrayOrders | CPP-Utilities/CPP-Utilities/MultiString.cpp:22-25 | the set's order puts "A" before "a" |
| MultiString.InsensitiveRemoveLeavesMatch | CPP-Utilities/CPP-Utilities/MultiString.cpp:58-68 | ignoring case, removing "a" from {"A", "a"} erases "A" and still leaves a match |
| Converters.ArrayToSet | CPP-Utilities/CPP-Utilities/Converters.hpp:36-42 | the set of the array's elements |
| Converters.SetToArray | CPP-Utilities/CPP-Utilities/Converters.hpp:26-32 | the set's elements in ascending order, each once |
| Converters.SetArrayRoundTrip | CPP-Utilities/CPP-Utilities/Converters.hpp:26-42 | converting a set to an array and back gives the set |
| Converters.Assign | CPP-Utilities/CPP-Utilities/Converters.hpp:72-75 | after the first `n` assignments the keys are those of the first `n` pairs |
| Converters.AssignLastWins | CPP-Utilities/CPP-Utilities/Converters.hpp:72-75 | a key holds the value of its last occurrence |
| Converters.ArraysToMap | CPP-Utilities/CPP-Utilities/Converters.hpp:61-77 | arrays of different lengths raise; otherwise the map has exactly the keys given, each with its last value |
| Converters.ArraysToMapOfPairs | CPP-Utilities/CPP-Utilities/Converters.hpp:50-77 | distinct keys with their values rebuild the map they were read from |
| Converters.MapToArrays | CPP-Utilities/CPP-Utilities/Converters.hpp:50-57 | the keys ascending with their values beside them, which convert back to the same map |
| FlagUtilities.Mask | CPP-Utilities/CPP-Utilities/FlagUtilities.hpp:19 | `1 << bit` has exactly that bit set |
| FlagUtilities.SetFlagBit | CPP-Utilities/CPP-Utilities/FlagUtilities.hpp:17-21 | sets that bit and keeps the others; a bit number past the width changes nothing |
| FlagUtilities.ClearFlagBit | CPP-Utilities/CPP-Utilities/FlagUtilities.hpp:23-28 | clears that bit and keeps the others; a bit number past the width changes nothing |
| FlagUtilities.IsFlagBitSet | CPP-Utilities/CPP-Utilities/FlagUtilities.hpp:30-36 | true exactly when the bit number is inside the width and that bit is set |
| FlagUtilities.SetFlags | CPP-Utilities/CPP-Utilities/FlagUtilities.hpp:38-40 | each bit is set exactly when it was set before or is in the mask |
| FlagUtilities.ClearFlags | CPP-Utilities/CPP-Utilities/FlagUtilities.hpp:42-44 | each bit is set exactly when it was set before and is not in the mask |
| FlagUtilities.AnySet | CPP-Utilities/CPP-Utilities/FlagUtilities.hpp:46-48 | some bit of the value is set in the flags |
| FlagUtilities.AllSet | CPP-Utilities/CPP-Utilities/FlagUtilities.hpp:50-53 | false for an empty value; otherwise every bit of the value is set in the flags |
| FlagUtilities.SetThenTest | CPP-Utilities/CPP-Utilities/FlagUtilities.hpp:17-36 | a bit reads as set after setting it and as clear after clearing it |
| FlagUtilities.ClearUndoesSet | CPP-Utilities/CPP-Utilities/FlagUtilities.hpp:38-44 | clearing a mask undoes setting it on flags that did not share its bits |
| FlagUtilities.ZeroIffNoBits | CPP-Utilities/CPP-Utilities/FlagUtilities.hpp:46-48 | a value is zero exactly when none of its sixteen bits is set |
| FlagUtilities.SameBits | CPP-Utilities/CPP-Utilities/FlagUtilities.hpp:50-53 | values with the same bits are equal |

## Left out

- The constructors of `ABigBinaryFile` and `ABigTextFile` that take a file descriptor, and copy/move construction and assignment. They differ from the path constructors only in where the file comes from.
- `OpenFile`, `fsetpos` failures and the memory-allocation failures. These need the C library.
- `ZeroSection`, `zeroBlocks`, `SkipZeroing` and `BlockErase`. The constructors never initialise `zeroBlocks`, so whether a slot is zeroed is undefined; the model never zeros one, and a slot keeps the bytes a short read did not overwrite.
- `AllData`. It is a single `fread` of the whole file.
- `BinaryFile.Load`: a failing `malloc` is not modelled. `Stat` stands for what `stat`, `fstat`, `fopen` and `fdopen` report.
- `BlockCache.CopyToBlob`: for a block that is not resident, the code reads `size` bytes from wherever the stream is. The model returns only "streamed", because the stream position is not modelled.
- `BlockCache.Create`: the block-size range 256–65535 is a precondition. The code accepts any `uint16_t`.
- The wrap of `blockCount - 1` when `blockCount` is 0. No block number passes `blockNumber >= blockCount` in that case.
- `ATextFile::AllLines` and `ATextFile::Refresh`. `AllLines` is the `lines` field itself; `Refresh` is `TextFile.Open` on the same buffer.
- Undefined behaviour in `ABigTextFile` is modelled as distinct error values, not as an exception the code throws. `EmptyHistory` stands for `lineHistory[0]` and `erase(begin())` on an empty vector (ATextFile.cpp:364-365). `PastPositions` stands for `lineFeedPositions[line]` past the end (ATextFile.cpp:393, 402).
- `BigTextFile.Refresh` does not re-check the file's modification time, since the code does not. Its contract therefore speaks only of a cache that is already coherent.
- `TreeHier`, `Colour`, `ThreadValue`, `DirContents`, `FileUtil`, `Miscellaneous` and `Debug`. They are not part of this model.
- In `StringStuff`: the floating-point and output helpers, `RPStringInArray`, `RPStringArrayInArray` and `RPStringUpper`. They are not part of this model.
- Case folding is ASCII only. `tolower` in other locales is not modelled.
- `StringStuff.ReplaceAll`: the loop runs on a fuel bound. The contract gives no result for a replacement that grows the text forever, and termination is proved only for shrinking replacements. For a search string of more than one character, the result is not compared with an independent definition. A replacement can complete a new occurrence across its seams, so the rounds are not a one-pass substitution. `StringStuff.ReplaceAllOneChar` gives that comparison for one character.
- `StringStuff.ReplaceLoop`: its own contract states only that the result is free of the search string. The rewriting itself is stated by `StringStuff.ReplaceLoopFree`, `StringStuff.ReplaceLength` and, for one character, `StringStuff.ReplaceOneChar`.
- `StringStuff.Collapse`: its own contract does not state that each run keeps one character in place. `StringStuff.CollapseRuns` states it.
- `StringStuff.ReduceConsecutive`: its own contract does not state that each run keeps one character in place. `StringStuff.ReduceRuns` states it, and `StringStuff.ReduceDetermined` shows that together with the contract it fixes the result.
- `StringStuff.CollapseChar`: its own contract does not state that each run of the character keeps one copy. `StringStuff.CollapseCharRuns` states it.
- `StringStuff.ReduceConsecutiveChar`: its own contract does not state that each run of the character keeps one copy. `StringStuff.ReduceCharRuns` states it, and `StringStuff.ReduceCharDetermined` shows that this fixes the result.
- `PosNeg`: the `double` overloads of the scalar operators and the five-valued tables (with `X` and `?`) are left out. The five-valued tables describe ranges, not the three objects.
- `PosNeg.Scale`: does not model `long long` overflow. `-LLONG_MIN` is left unbounded.
- `PosNeg.MulValue`: does not model `long long` overflow, for the same reason.
- `PosNeg.DivValue`: does not model `long long` overflow. `LLONG_MIN / -1` is undefined in C++; the model returns 2^63.
- Byte order of `B16`/`B32`/`B64`. The model returns the bytes read; the cast to an integer depends on the host.
- 64-bit unsigned overflow of positions is modelled only where it changes a result: `BinaryFile.B64WrapsNearTop` and `BigTextFile.Sub64`.
- `PathClass(int desc)` and the `const char*` constructor's null-pointer case. Neither can be stated on Dafny strings.
- `FlagUtilities` is modelled at `uint16_t`, the width the library uses it with. The templates' other widths are not modelled.
- `Converters` set and map templates are instantiated at string keys. Their iteration order is the one `std::string` defines.
- Where the code differs from its comments, the model follows the code:
  - `IsRelative` is true for a path that starts with the marker.
  - `PathClass` accepts '.' as a marker, and only `RemoveSuffix` refuses it.
  - `BeforeMarker` returns "" when the marker is absent.
  - `ReplaceAll` returns -2 when the replacement contains the search string, and compares case-sensitively.
  - `LongestString` never sets its index.
  - For CR LF, `lineFeedPositions` holds the LF, not the first character.
