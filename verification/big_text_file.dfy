/** ABigTextFile: a text file read through the block cache. Construction
    scans the file once for terminators and keeps one position per line;
    lines are then read on demand and kept in a FIFO-bounded line cache.

    Reads go through `BlockCache.ByteAt`, so every operation threads the
    cache value and takes the file contents `disk`. Whatever the cache did
    before an error (loads, evictions) stays, as it does in the C++ object. */
module BigTextFile {
  import opened Wrappers
  import opened Seqs
  import BlockCache
  import TextFile

  type NewLine = TextFile.NewLine

  const U64: int := 0x1_0000_0000_0000_0000

  datatype Error =
    | NoSuchLine                        // ATFException "No such line"
    | PastPositions                     // `lineFeedPositions[i]` past its end: undefined in C++
    | EmptyHistory                      // `erase(begin())` on an empty `lineHistory`: undefined in C++
    | FileError(cause: BlockCache.Error)  // raised by the block cache

  /** The object's state. `positions` is `lineFeedPositions`; `lineCache`
      and `history` (`lineHistory`, oldest first) are the line cache. */
  datatype BigText = BigText(
    file: BlockCache.Cache,
    style: NewLine,
    positions: seq<nat>,
    lastIsLF: bool,
    lineCache: map<nat, seq<bv8>>,
    history: seq<nat>,
    maxLinesHeld: nat,
    doNotUpdate: bool)

  /** What decides where each line lies: the new-line style, the scanned
      positions, the final-terminator flag and the file size. */
  datatype Layout = Layout(style: NewLine, positions: seq<nat>, lastIsLF: bool, size: nat)

  function LayoutOf(t: BigText): Layout {
    Layout(t.style, t.positions, t.lastIsLF, t.file.dataSize)
  }

  /** The line cache holds exactly the lines of `history`, each once, and no
      more than `maxLinesHeld` of them. */
  ghost predicate LinesValid(t: BigText) {
    && (forall l :: l in t.lineCache <==> l in t.history)
    && BlockCache.NoDuplicates(t.history)
    && |t.history| <= t.maxLinesHeld
  }

  ghost predicate Valid(t: BigText) {
    BlockCache.Valid(t.file) && LinesValid(t)
  }

  /** `d` is a later value of the cache `c`: same file geometry and size. */
  ghost predicate Keeps(c: BlockCache.Cache, d: BlockCache.Cache) {
    && BlockCache.Valid(d)
    && d.dataSize == c.dataSize && d.blockCount == c.blockCount
    && d.blockSize == c.blockSize && d.maxBlocks == c.maxBlocks
    && d.lastCheck == c.lastCheck
  }

  //------------------------------------------------------------------
  // Scanning for terminators

  /** Index of the last byte of each terminator the left-to-right scan meets
      from `idx` on (for CR LF, the LF). */
  function Terminators(buf: seq<bv8>, nl: NewLine, idx: nat): (r: seq<nat>)
    requires idx <= |buf|
    decreases |buf| - idx
  {
    if idx == |buf| then []
    else
      var (isLF, last) := TextFile.LineFeedAt(buf, idx, nl);
      if isLF then [last] + Terminators(buf, nl, last + 1)
      else Terminators(buf, nl, idx + 1)
  }

  /** `r` is strictly increasing. */
  predicate Ascending(r: seq<nat>) {
    forall i, j :: 0 <= i < j < |r| ==> r[i] < r[j]
  }

  /** Every element of `r` is the last index of an occurrence of `t` lying
      at or after `idx`. */
  ghost predicate EndsOfTerminators(buf: seq<bv8>, t: seq<bv8>, idx: nat, r: seq<nat>) {
    forall k :: 0 <= k < |r| ==>
      idx + |t| <= r[k] + 1 <= |buf| && OccursAt(buf, t, r[k] + 1 - |t|)
  }

  /** `r` ascends and holds ends of terminators `t` lying at or after `idx`. */
  ghost predicate Shaped(buf: seq<bv8>, t: seq<bv8>, idx: nat, r: seq<nat>) {
    Ascending(r) && EndsOfTerminators(buf, t, idx, r)
  }

  /** Every scanned position is the last byte of a terminator at or after
      `idx`, and the positions ascend. */
  lemma {:induction false} TerminatorsShape(buf: seq<bv8>, nl: NewLine, idx: nat)
    requires idx <= |buf|
    ensures Shaped(buf, TextFile.Terminator(nl), idx, Terminators(buf, nl, idx))
    decreases |buf| - idx
  {
    var t := TextFile.Terminator(nl);
    if idx < |buf| {
      var lf := TextFile.LineFeedAt(buf, idx, nl);
      if lf.0 {
        var rest := Terminators(buf, nl, lf.1 + 1);
        assert Terminators(buf, nl, idx) == [lf.1] + rest;
        TerminatorsShape(buf, nl, lf.1 + 1);
        TerminatorsCons(buf, t, idx, lf.1, rest);
      } else {
        var rest := Terminators(buf, nl, idx + 1);
        assert Terminators(buf, nl, idx) == rest;
        TerminatorsShape(buf, nl, idx + 1);
        TerminatorsSkip(buf, t, idx, rest);
      }
    } else {
      assert Terminators(buf, nl, idx) == [];
    }
  }

  lemma TerminatorsSkip(buf: seq<bv8>, t: seq<bv8>, idx: nat, rest: seq<nat>)
    requires Shaped(buf, t, idx + 1, rest)
    ensures Shaped(buf, t, idx, rest)
  {
    forall k | 0 <= k < |rest|
      ensures idx + |t| <= rest[k] + 1
    {
      assert idx + 1 + |t| <= rest[k] + 1;
    }
  }

  lemma TerminatorsCons(buf: seq<bv8>, t: seq<bv8>, idx: nat, last: nat, rest: seq<nat>)
    requires OccursAt(buf, t, idx) && |t| > 0 && last == idx + |t| - 1
    requires Shaped(buf, t, last + 1, rest)
    ensures Shaped(buf, t, idx, [last] + rest)
  {
    var r := [last] + rest;
    forall k | 0 < k < |r|
      ensures last < r[k] && idx + |t| <= r[k] + 1 <= |buf| && OccursAt(buf, t, r[k] + 1 - |t|)
    {
      assert r[k] == rest[k - 1];
    }
    forall i, j | 0 <= i < j < |r|
      ensures r[i] < r[j]
    {
      if i > 0 {
        assert r[i] == rest[i - 1] && r[j] == rest[j - 1];
      }
    }
  }

  /** Where piece `k` of the scan from `idx` starts: just after the previous
      terminator. */
  function PieceStart(ps: seq<nat>, idx: nat, k: nat): int
    requires k <= |ps|
  {
    if k == 0 then idx else ps[k - 1] + 1
  }

  /** Where piece `k` ends: at the first byte of the next terminator, or at
      the end of the text for the last piece. */
  function PieceEnd(ps: seq<nat>, n: nat, width: nat, k: nat): int
    requires k <= |ps|
  {
    if k < |ps| then ps[k] + 1 - width else n
  }

  /** Piece `k` of `p` is the text between terminators `k - 1` and `k`. */
  ghost predicate Spans(buf: seq<bv8>, p: seq<seq<bv8>>, ps: seq<nat>, width: nat, idx: nat) {
    && |p| == |ps| + 1
    && forall k :: 0 <= k < |p| ==>
         var a := PieceStart(ps, idx, k);
         var b := PieceEnd(ps, |buf|, width, k);
         0 <= a <= b <= |buf| && p[k] == buf[a..b]
  }

  /** The pieces of `TextFile` lie between the scanned positions. */
  lemma {:induction false} PiecesBetweenTerminators(buf: seq<bv8>, nl: NewLine, idx: nat)
    requires idx <= |buf|
    ensures Spans(buf, TextFile.Pieces(buf, nl, idx), Terminators(buf, nl, idx),
                  |TextFile.Terminator(nl)|, idx)
    decreases |buf| - idx
  {
    var t := TextFile.Terminator(nl);
    var p := TextFile.Pieces(buf, nl, idx);
    var ps := Terminators(buf, nl, idx);
    if idx == |buf| {
      assert p == [[]] && ps == [];
      assert p[0] == buf[idx..idx];
    } else {
      var (isLF, last) := TextFile.LineFeedAt(buf, idx, nl);
      if isLF {
        PiecesBetweenTerminators(buf, nl, last + 1);
        SpansAfterTerminator(buf, nl, idx, last);
      } else {
        PiecesBetweenTerminators(buf, nl, idx + 1);
        SpansAfterByte(buf, nl, idx);
      }
    }
  }

  lemma SpansAfterTerminator(buf: seq<bv8>, nl: NewLine, idx: nat, last: nat)
    requires idx < |buf| && OccursAt(buf, TextFile.Terminator(nl), idx)
    requires last == idx + |TextFile.Terminator(nl)| - 1
    requires Spans(buf, TextFile.Pieces(buf, nl, last + 1), Terminators(buf, nl, last + 1),
                   |TextFile.Terminator(nl)|, last + 1)
    ensures Spans(buf, TextFile.Pieces(buf, nl, idx), Terminators(buf, nl, idx),
                  |TextFile.Terminator(nl)|, idx)
  {
    var w := |TextFile.Terminator(nl)|;
    var p := TextFile.Pieces(buf, nl, idx);
    var ps := Terminators(buf, nl, idx);
    var rest := TextFile.Pieces(buf, nl, last + 1);
    var rs := Terminators(buf, nl, last + 1);
    assert p == [[]] + rest;
    assert ps == [last] + rs;
    forall k | 0 <= k < |p|
      ensures var a := PieceStart(ps, idx, k);
        var b := PieceEnd(ps, |buf|, w, k);
        0 <= a <= b <= |buf| && p[k] == buf[a..b]
    {
      if k == 0 {
        assert PieceEnd(ps, |buf|, w, 0) == idx;
      } else {
        assert p[k] == rest[k - 1];
        assert PieceStart(ps, idx, k) == PieceStart(rs, last + 1, k - 1);
        assert PieceEnd(ps, |buf|, w, k) == PieceEnd(rs, |buf|, w, k - 1);
      }
    }
  }

  lemma SpansAfterByte(buf: seq<bv8>, nl: NewLine, idx: nat)
    requires idx < |buf| && !OccursAt(buf, TextFile.Terminator(nl), idx)
    requires Spans(buf, TextFile.Pieces(buf, nl, idx + 1), Terminators(buf, nl, idx + 1),
                   |TextFile.Terminator(nl)|, idx + 1)
    ensures Spans(buf, TextFile.Pieces(buf, nl, idx), Terminators(buf, nl, idx),
                  |TextFile.Terminator(nl)|, idx)
  {
    var w := |TextFile.Terminator(nl)|;
    var p := TextFile.Pieces(buf, nl, idx);
    var ps := Terminators(buf, nl, idx);
    var rest := TextFile.Pieces(buf, nl, idx + 1);
    assert ps == Terminators(buf, nl, idx + 1);
    assert p == [[buf[idx]] + rest[0]] + rest[1..];
    forall k | 0 <= k < |p|
      ensures var a := PieceStart(ps, idx, k);
        var b := PieceEnd(ps, |buf|, w, k);
        0 <= a <= b <= |buf| && p[k] == buf[a..b]
    {
      if k == 0 {
        var b := PieceEnd(ps, |buf|, w, 0);
        assert rest[0] == buf[idx + 1..b];
        assert buf[idx..b] == [buf[idx]] + buf[idx + 1..b];
      } else {
        assert p[k] == rest[k];
      }
    }
  }

  //------------------------------------------------------------------
  // Reading through the block cache

  /** `IsLineFeed`, reading bytes through the block cache; the second value
      is the index advanced past a CR LF's CR. */
  function ReadLineFeed(c: BlockCache.Cache, disk: seq<bv8>, idx: nat, nl: NewLine)
    : (s: BlockCache.Step<(bool, nat)>)
    requires BlockCache.Valid(c)
    ensures Keeps(c, s.cache)
    ensures s.out.Ok? ==> idx <= s.out.value.1 < c.dataSize
    ensures s.out.Ok? && !s.out.value.0 ==> s.out.value.1 == idx
  {
    var r := BlockCache.ByteAt(c, disk, idx);
    if r.out.Err? then BlockCache.Step(r.cache, Err(r.out.error))
    else
      var b := r.out.value;
      match nl
      case ClassicMac => BlockCache.Step(r.cache, Ok((b == TextFile.CR, idx)))
      case Unix => BlockCache.Step(r.cache, Ok((b == TextFile.LF, idx)))
      case Windows =>
        if b != TextFile.CR then BlockCache.Step(r.cache, Ok((false, idx)))
        else if idx == c.dataSize - 1 then BlockCache.Step(r.cache, Ok((false, idx)))
        else
          var r2 := BlockCache.ByteAt(r.cache, disk, idx + 1);
          if r2.out.Err? then BlockCache.Step(r2.cache, Err(r2.out.error))
          else if r2.out.value == TextFile.LF then BlockCache.Step(r2.cache, Ok((true, idx + 1)))
          else BlockCache.Step(r2.cache, Ok((false, idx)))
  }

  /** Over a coherent cache, `IsLineFeed` sees the file: it agrees with the
      in-memory test, or raises OutOfRange past the end. */
  lemma ReadLineFeedCoherent(c: BlockCache.Cache, disk: seq<bv8>, idx: nat, nl: NewLine)
    requires BlockCache.Coherent(c, disk)
    ensures var s := ReadLineFeed(c, disk, idx, nl);
      && BlockCache.Coherent(s.cache, disk)
      && s.out == if idx < |disk| then Ok(TextFile.LineFeedAt(disk, idx, nl))
                  else Err(BlockCache.OutOfRange)
  {
    BlockCache.CoherentByteAt(c, disk, idx);
    var r := BlockCache.ByteAt(c, disk, idx);
    if idx < |disk| {
      if nl == TextFile.Windows && disk[idx] == TextFile.CR && idx != |disk| - 1 {
        WindowsPairCoherent(c, disk, idx);
      } else {
        assert r.out == Ok(disk[idx]);
      }
    }
  }

  /** The CR LF case of `ReadLineFeedCoherent`: a CR that is not the last
      byte makes `IsLineFeed` read the next byte too. */
  lemma WindowsPairCoherent(c: BlockCache.Cache, disk: seq<bv8>, idx: nat)
    requires BlockCache.Coherent(c, disk)
    requires idx + 1 < |disk| && disk[idx] == TextFile.CR
    ensures var s := ReadLineFeed(c, disk, idx, TextFile.Windows);
      && BlockCache.Coherent(s.cache, disk)
      && s.out == Ok(TextFile.LineFeedAt(disk, idx, TextFile.Windows))
  {
    BlockCache.CoherentByteAt(c, disk, idx);
    var r := BlockCache.ByteAt(c, disk, idx);
    BlockCache.CoherentByteAt(r.cache, disk, idx + 1);
    var r2 := BlockCache.ByteAt(r.cache, disk, idx + 1);
    ReadCRThenNext(c, disk, idx, r, r2, disk[idx + 1]);
  }

  /** `IsLineFeed` in CR LF style at a CR that is not the last byte, once
      the two bytes read are known. */
  lemma ReadCRThenNext(c: BlockCache.Cache, disk: seq<bv8>, idx: nat,
                       r: BlockCache.Step<bv8>, r2: BlockCache.Step<bv8>, next: bv8)
    requires BlockCache.Valid(c) && idx + 1 < c.dataSize
    requires r == BlockCache.ByteAt(c, disk, idx) && r.out == Ok(TextFile.CR)
    requires r2 == BlockCache.ByteAt(r.cache, disk, idx + 1) && r2.out == Ok(next)
    ensures ReadLineFeed(c, disk, idx, TextFile.Windows) ==
      BlockCache.Step(r2.cache, Ok(if next == TextFile.LF then (true, idx + 1) else (false, idx)))
  {
  }

  /** `a - k` on `uint64`, for the small `k` used here. */
  function Sub64(a: nat, k: nat): (r: nat)
    requires k <= 2
    ensures a >= k ==> r == a - k
    ensures a < k ==> r >= U64 - 2
  {
    if a >= k then a - k else a + U64 - k
  }

  /** `lineFeedPositions` as `RetrieveLinePositions` leaves it: nothing for
      an empty file, else 0 followed by the scanned terminator positions. */
  function PositionsOf(buf: seq<bv8>, nl: NewLine): seq<nat> {
    if |buf| == 0 then [] else [0] + Terminators(buf, nl, 0)
  }

  /** `lastIsLF` as `RetrieveLinePositions` leaves it. */
  predicate EndsWithTerminator(buf: seq<bv8>, nl: NewLine) {
    |buf| > 0 && EndsWith(buf, TextFile.Terminator(nl))
  }

  /** The loop state of `RetrieveLinePositions` over a coherent cache: the
      positions collected before `sz`, completed by the scan from `sz`, give
      `PositionsOf`. */
  ghost predicate ScanInv(c: BlockCache.Cache, disk: seq<bv8>, nl: NewLine, sz: nat, positions: seq<nat>) {
    && BlockCache.Coherent(c, disk) && sz <= |disk|
    && (|disk| > 0 ==> positions + Terminators(disk, nl, sz) == PositionsOf(disk, nl))
  }

  /** Moving the scan past one position: a terminator's last index moves
      from the scan to the collected positions. */
  lemma TerminatorsStep(disk: seq<bv8>, nl: NewLine, sz: nat, positions: seq<nat>)
    requires sz < |disk|
    ensures var lf := TextFile.LineFeedAt(disk, sz, nl);
      positions + Terminators(disk, nl, sz) ==
        (if lf.0 then positions + [lf.1] else positions) + Terminators(disk, nl, lf.1 + 1)
  {
    var lf := TextFile.LineFeedAt(disk, sz, nl);
    if lf.0 {
      assert Terminators(disk, nl, sz) == [lf.1] + Terminators(disk, nl, lf.1 + 1);
      assert positions + ([lf.1] + Terminators(disk, nl, lf.1 + 1))
          == positions + [lf.1] + Terminators(disk, nl, lf.1 + 1);
    }
  }

  /** What one round of the scan leaves after testing `sz`: the cache, the
      positions (with the terminator's last index when there is one), where
      the scan resumes, and the exception raised, if any. */
  function Advance(st: BlockCache.Step<(bool, nat)>, sz: nat, ps: seq<nat>)
    : (BlockCache.Cache, seq<nat>, nat, Option<BlockCache.Error>)
  {
    if st.out.Err? then (st.cache, ps, sz + 1, Some(st.out.error))
    else
      var lf := st.out.value;
      (st.cache, if lf.0 then ps + [lf.1] else ps, lf.1 + 1, None)
  }

  /** One round of the scan keeps `ScanInv`, and it never raises. */
  lemma ScanStep(c: BlockCache.Cache, disk: seq<bv8>, nl: NewLine, sz: nat, ps: seq<nat>,
                 st: BlockCache.Step<(bool, nat)>)
    requires BlockCache.Valid(c) && sz < c.dataSize
    requires st == ReadLineFeed(c, disk, sz, nl)
    ensures var r := Advance(st, sz, ps);
      && Keeps(c, r.0) && sz < r.2
      && (ScanInv(c, disk, nl, sz, ps) ==> r.3.None? && ScanInv(r.0, disk, nl, r.2, r.1))
  {
    if ScanInv(c, disk, nl, sz, ps) {
      ReadLineFeedCoherent(c, disk, sz, nl);
      ScanInvStep(st, c, disk, nl, sz, ps);
    }
  }

  /** `ScanStep` for a round whose outcome is already known. */
  lemma ScanInvStep(st: BlockCache.Step<(bool, nat)>, c: BlockCache.Cache, disk: seq<bv8>, nl: NewLine, sz: nat, ps: seq<nat>)
    requires ScanInv(c, disk, nl, sz, ps) && sz < |disk|
    requires BlockCache.Coherent(st.cache, disk) && st.out == Ok(TextFile.LineFeedAt(disk, sz, nl))
    ensures var r := Advance(st, sz, ps); r.3.None? && ScanInv(r.0, disk, nl, r.2, r.1)
  {
    TerminatorsStep(disk, nl, sz, ps);
  }

  /** One round of the scan: test `sz` for a terminator, collect its last
      index, and move past it. */
  method ScanOne(c0: BlockCache.Cache, disk: seq<bv8>, nl: NewLine, sz: nat, ps: seq<nat>)
    returns (c: BlockCache.Cache, positions: seq<nat>, next: nat, err: Option<BlockCache.Error>)
    requires BlockCache.Valid(c0) && sz < c0.dataSize
    ensures Keeps(c0, c) && sz < next
    ensures ScanInv(c0, disk, nl, sz, ps) ==> err.None? && ScanInv(c, disk, nl, next, positions)
  {
    var st := ReadLineFeed(c0, disk, sz, nl);
    ScanStep(c0, disk, nl, sz, ps, st);
    var r := Advance(st, sz, ps);
    c, positions, next, err := r.0, r.1, r.2, r.3;
  }

  /** The loop of `RetrieveLinePositions`: from 0 up to the file size, each
      terminator's last index is appended after the leading 0. */
  method ScanPositions(c0: BlockCache.Cache, disk: seq<bv8>, nl: NewLine)
    returns (c: BlockCache.Cache, positions: seq<nat>, out: Result<(), BlockCache.Error>)
    requires BlockCache.Valid(c0)
    ensures Keeps(c0, c)
    ensures BlockCache.Coherent(c0, disk) ==> BlockCache.Coherent(c, disk) && out.Ok?
    ensures BlockCache.Coherent(c0, disk) && |disk| > 0 ==> positions == PositionsOf(disk, nl)
  {
    c := c0;
    positions := [0];
    var sz: nat := 0;
    ghost var coherent := BlockCache.Coherent(c0, disk);
    if coherent && |disk| > 0 {
      assert positions + Terminators(disk, nl, 0) == PositionsOf(disk, nl);
    }
    while sz < c.dataSize
      invariant Keeps(c0, c)
      invariant coherent ==> ScanInv(c, disk, nl, sz, positions)
      decreases c.dataSize - sz
    {
      var next, err;
      c, positions, next, err := ScanOne(c, disk, nl, sz, positions);
      if err.Some? {
        return c, positions, Err(err.value);
      }
      sz := next;
    }
    if coherent && |disk| > 0 {
      assert Terminators(disk, nl, sz) == [];
    }
    out := Ok(());
  }

  /** Where `RetrieveLinePositions` looks for a closing terminator:
      `Size() - 2` for CR LF, else `Size() - 1`, as unsigned 64-bit values. */
  function ClosingIndex(size: nat, nl: NewLine): nat {
    Sub64(size, if nl == TextFile.Windows then 2 else 1)
  }

  /** The closing-terminator test reads past the end exactly for a one-byte
      CR LF file; otherwise it finds whether the file ends with a
      terminator. */
  lemma ClosingTest(c: BlockCache.Cache, disk: seq<bv8>, nl: NewLine)
    requires BlockCache.Coherent(c, disk) && |disk| > 0
    ensures var s := ReadLineFeed(c, disk, ClosingIndex(|disk|, nl), nl);
      && BlockCache.Coherent(s.cache, disk)
      && (s.out.Ok? <==> !(nl == TextFile.Windows && |disk| == 1))
      && (s.out.Ok? ==> s.out.value.0 == EndsWithTerminator(disk, nl))
  {
    ReadLineFeedCoherent(c, disk, ClosingIndex(|disk|, nl), nl);
    ClosingLineFeed(disk, nl);
  }

  /** `ClosingTest` on the file's bytes alone. */
  lemma ClosingLineFeed(disk: seq<bv8>, nl: NewLine)
    requires |disk| > 0
    ensures var at := ClosingIndex(|disk|, nl);
      && (at < |disk| <==> !(nl == TextFile.Windows && |disk| == 1))
      && (at < |disk| ==> TextFile.LineFeedAt(disk, at, nl).0 == EndsWithTerminator(disk, nl))
  {
    var at := ClosingIndex(|disk|, nl);
    if at < |disk| {
      var t := TextFile.Terminator(nl);
      assert at == |disk| - |t|;
    }
  }

  /** `RetrieveLinePositions`. A one-byte CR LF file makes the closing test
      read at 2^64 - 1, which raises. */
  method RetrieveLinePositions(t: BigText, disk: seq<bv8>) returns (r: BigText, out: Result<(), Error>)
    requires Valid(t)
    ensures Valid(r) && Keeps(t.file, r.file)
    ensures r.style == t.style && r.lineCache == t.lineCache && r.history == t.history
    ensures r.maxLinesHeld == t.maxLinesHeld && r.doNotUpdate == t.doNotUpdate
    ensures out.Err? ==> !r.lastIsLF
    ensures t.file.dataSize == 0 ==> r == t.(positions := [], lastIsLF := false) && out.Ok?
    ensures BlockCache.Coherent(t.file, disk) ==>
      && BlockCache.Coherent(r.file, disk)
      && r.positions == PositionsOf(disk, t.style)
      && (out.Ok? <==> !(t.style == TextFile.Windows && |disk| == 1))
      && (out.Ok? ==> r.lastIsLF == EndsWithTerminator(disk, t.style))
  {
    if t.file.dataSize == 0 {
      return t.(positions := [], lastIsLF := false), Ok(());
    }
    var c, positions, scanned := ScanPositions(t.file, disk, t.style);
    if scanned.Err? {
      return t.(file := c, positions := positions, lastIsLF := false), Err(FileError(scanned.error));
    }
    if BlockCache.Coherent(t.file, disk) {
      ClosingTest(c, disk, t.style);
    }
    var st := ReadLineFeed(c, disk, ClosingIndex(c.dataSize, t.style), t.style);
    if st.out.Err? {
      return t.(file := st.cache, positions := positions, lastIsLF := false), Err(FileError(st.out.error));
    }
    r := t.(file := st.cache, positions := positions, lastIsLF := st.out.value.0);
    out := Ok(());
  }

  /** The constructors: open the block cache on the file, then scan it.
      Either step raising leaves no object. */
  method Open(blockSize: nat, maxBlocks: nat, maxLines: nat, nl: NewLine, f: BlockCache.FileState)
    returns (out: Result<BigText, Error>)
    requires BlockCache.MinBlockSize <= blockSize <= BlockCache.MaxBlockSize
    ensures out.Ok? <==> maxBlocks > 0 && f.Regular? && !(nl == TextFile.Windows && |f.contents| == 1)
    ensures out.Err? && (maxBlocks == 0 || !f.Regular?) ==>
      out == Err(FileError(BlockCache.Create(blockSize, maxBlocks, f).error))
    ensures out.Ok? ==>
      && Valid(out.value) && BlockCache.Coherent(out.value.file, f.contents)
      && LayoutOf(out.value) == ScannedLayout(f.contents, nl)
      && out.value.lineCache == map[] && out.value.history == []
      && out.value.maxLinesHeld == maxLines && !out.value.doNotUpdate
  {
    var created := BlockCache.Create(blockSize, maxBlocks, f);
    if created.Err? {
      return Err(FileError(created.error));
    }
    var t := BigText(created.value, nl, [], false, map[], [], maxLines, false);
    var r, scanned := RetrieveLinePositions(t, f.contents);
    if scanned.Err? {
      return Err(scanned.error);
    }
    out := Ok(r);
  }

  //------------------------------------------------------------------
  // Lines

  /** `LineCount`: no lines for an empty file; otherwise one per position,
      plus one when the file ends with a terminator. */
  function LineCount(l: Layout): nat {
    if l.size == 0 then 0
    else if l.lastIsLF then |l.positions| + 1
    else |l.positions|
  }

  /** The byte range `[actualPos, nextLF)` that `operator[]` reads for a line
      that is not cached, or the out-of-bounds `lineFeedPositions` access. */
  function LineSpan(l: Layout, line: nat): (r: Result<(nat, nat), Error>)
    requires line < LineCount(l)
  {
    var k := if l.style == TextFile.Windows then 2 else 1;
    if line > 0 && line >= |l.positions| then Err(PastPositions)
    else
      var pos: int := if line > 0 then l.positions[line] as int else 0 - k;
      if line == LineCount(l) - 1 then
        Ok(((pos + k) as nat, if l.lastIsLF then Sub64(l.size, k) else l.size))
      else if line + 1 >= |l.positions| then Err(PastPositions)
      else Ok(((pos + k) as nat, l.positions[line + 1]))
  }

  /** What `operator[]` yields for `line` when the cache agrees with `disk`
      and the line is not cached or was cached from the same file. */
  function Expected(l: Layout, disk: seq<bv8>, line: nat): Result<seq<bv8>, Error> {
    if line >= LineCount(l) then Err(NoSuchLine)
    else match LineSpan(l, line)
      case Err(e) => Err(e)
      case Ok((from, to)) =>
        if from >= to then Ok([])
        else if to > |disk| then Err(FileError(BlockCache.OutOfRange))
        else Ok(disk[from..to])
  }

  /** Every cached line is what reading it again would give. */
  ghost predicate CacheSound(t: BigText, disk: seq<bv8>) {
    forall l :: l in t.lineCache ==> Expected(LayoutOf(t), disk, l) == Ok(t.lineCache[l])
  }

  /** `AddToHistory`: nothing while `doNotUpdate`; otherwise, with the cache
      full, the oldest line is dropped first, then the line is appended and
      stored. With `maxLinesHeld == 0` the first drop erases from an empty
      history. */
  function AddToHistory(t: BigText, line: nat, s: seq<bv8>): (r: Result<BigText, Error>)
    ensures t.doNotUpdate ==> r == Ok(t)
    ensures r.Err? <==> !t.doNotUpdate && |t.history| == t.maxLinesHeld && t.history == []
    ensures r.Err? ==> r.error == EmptyHistory
    ensures r.Ok? ==>
      && r.value.file == t.file && LayoutOf(r.value) == LayoutOf(t)
      && r.value.maxLinesHeld == t.maxLinesHeld && r.value.doNotUpdate == t.doNotUpdate
    ensures r.Ok? && !t.doNotUpdate ==>
      && line in r.value.lineCache && r.value.lineCache[line] == s
      && |r.value.history| > 0 && r.value.history[|r.value.history| - 1] == line
      && forall l :: l in r.value.lineCache && l != line ==>
           l in t.lineCache && r.value.lineCache[l] == t.lineCache[l]
    ensures r.Ok? && !t.doNotUpdate && |t.history| == t.maxLinesHeld && t.history[0] != line ==>
      t.history[0] !in r.value.lineCache
    ensures r.Ok? && LinesValid(t) && line !in t.lineCache ==> LinesValid(r.value)
  {
    if t.doNotUpdate then Ok(t)
    else if |t.history| == t.maxLinesHeld && t.history == [] then Err(EmptyHistory)
    else
      var t1 := if |t.history| == t.maxLinesHeld
        then t.(history := t.history[1..], lineCache := t.lineCache - {t.history[0]})
        else t;
      var r := t1.(history := t1.history + [line], lineCache := t1.lineCache[line := s]);
      assert LinesValid(t) && line !in t.lineCache ==> LinesValid(r) by {
        if LinesValid(t) && line !in t.lineCache {
          if |t.history| == t.maxLinesHeld {
            forall l | l in t1.lineCache ensures l in t1.history {
              var k :| 0 <= k < |t.history| && t.history[k] == l;
              assert k != 0;
              assert t1.history[k - 1] == l;
            }
          }
          assert BlockCache.NoDuplicates(r.history) by {
            forall i, j | 0 <= i < j < |r.history| ensures r.history[i] != r.history[j] {
              if j == |r.history| - 1 {
                assert r.history[i] in t.history by {
                  if |t.history| == t.maxLinesHeld { assert r.history[i] == t.history[i + 1]; }
                }
              } else if |t.history| == t.maxLinesHeld {
                assert r.history[i] == t.history[i + 1] && r.history[j] == t.history[j + 1];
              }
            }
          }
        }
      }
      Ok(r)
  }

  /** One `(*file)[pos]` read. */
  method ReadByte(c0: BlockCache.Cache, disk: seq<bv8>, pos: nat)
    returns (c: BlockCache.Cache, b: bv8, err: Option<BlockCache.Error>)
    requires BlockCache.Valid(c0)
    ensures Keeps(c0, c)
    ensures BlockCache.Coherent(c0, disk) ==>
      && BlockCache.Coherent(c, disk)
      && (err.None? <==> pos < |disk|)
      && (err.None? ==> b == disk[pos])
      && (err.Some? ==> err.value == BlockCache.OutOfRange)
  {
    if BlockCache.Coherent(c0, disk) {
      BlockCache.CoherentByteAt(c0, disk, pos);
    }
    var st := BlockCache.ByteAt(c0, disk, pos);
    c := st.cache;
    if st.out.Err? {
      return c, 0, Some(st.out.error);
    }
    b, err := st.out.value, None;
  }

  /** The read loop of `operator[]`: bytes `from` up to `to`, one at a time
      through the cache. Over a coherent cache it yields the file's bytes,
      or raises OutOfRange when the span runs past the end of the file. */
  method ReadSpan(c0: BlockCache.Cache, disk: seq<bv8>, from: nat, to: nat)
    returns (c: BlockCache.Cache, s: seq<bv8>, err: Option<BlockCache.Error>)
    requires BlockCache.Valid(c0)
    ensures Keeps(c0, c)
    ensures from >= to ==> c == c0 && s == [] && err.None?
    ensures BlockCache.Coherent(c0, disk) ==>
      && BlockCache.Coherent(c, disk)
      && (err.Some? <==> from < to && to > |disk|)
      && (err.Some? ==> err.value == BlockCache.OutOfRange)
      && (err.None? && from < to ==> s == disk[from..to])
    decreases if from < to then to - from else 0
  {
    if from >= to {
      return c0, [], None;
    }
    var b, e;
    c, b, e := ReadByte(c0, disk, from);
    if e.Some? {
      return c, [], e;
    }
    var rest;
    c, rest, err := ReadSpan(c, disk, from + 1, to);
    s := [b] + rest;
  }

  /** Storing a line read from a coherent cache keeps every cached line
      equal to a fresh read. */
  lemma AddKeepsSound(t: BigText, line: nat, s: seq<bv8>, disk: seq<bv8>)
    requires CacheSound(t, disk)
    requires Expected(LayoutOf(t), disk, line) == Ok(s)
    requires AddToHistory(t, line, s).Ok?
    ensures CacheSound(AddToHistory(t, line, s).value, disk)
  {
    var r := AddToHistory(t, line, s).value;
    forall l | l in r.lineCache
      ensures Expected(LayoutOf(r), disk, l) == Ok(r.lineCache[l])
    {
      if l != line || t.doNotUpdate {
        assert l in t.lineCache;
      }
    }
  }

  /** `operator[]`: NoSuchLine past the last line; a cached line without
      reading; otherwise the bytes of its span, read through the cache and
      handed to `AddToHistory`. */
  method Get(t: BigText, disk: seq<bv8>, line: nat) returns (r: BigText, out: Result<seq<bv8>, Error>)
    requires Valid(t)
    ensures Valid(r) && Keeps(t.file, r.file) && LayoutOf(r) == LayoutOf(t)
    ensures r.maxLinesHeld == t.maxLinesHeld && r.doNotUpdate == t.doNotUpdate
    ensures out == Err(NoSuchLine) <==> line >= LineCount(LayoutOf(t))
    ensures line >= LineCount(LayoutOf(t)) ==> r == t
    ensures line < LineCount(LayoutOf(t)) && line in t.lineCache ==>
      r == t && out == Ok(t.lineCache[line])
    ensures (line < LineCount(LayoutOf(t)) && line !in t.lineCache
             && LineSpan(LayoutOf(t), line).Err?) ==>
      r == t && out == Err(LineSpan(LayoutOf(t), line).error)
    ensures t.doNotUpdate ==> r.lineCache == t.lineCache && r.history == t.history
    ensures out.Ok? && !t.doNotUpdate && line !in t.lineCache ==>
      line in r.lineCache && r.lineCache[line] == out.value
    ensures out == Err(EmptyHistory) ==> !t.doNotUpdate && t.maxLinesHeld == 0
    ensures BlockCache.Coherent(t.file, disk) ==> BlockCache.Coherent(r.file, disk)
    ensures BlockCache.Coherent(t.file, disk) && CacheSound(t, disk) ==>
      && CacheSound(r, disk)
      && (out != Err(EmptyHistory) ==> out == Expected(LayoutOf(t), disk, line))
  {
    var lay := LayoutOf(t);
    if line >= LineCount(lay) {
      return t, Err(NoSuchLine);
    }
    if line in t.lineCache {
      return t, Ok(t.lineCache[line]);
    }
    var span := LineSpan(lay, line);
    if span.Err? {
      return t, Err(span.error);
    }
    r, out := ReadUncached(t, disk, line, span.value.0, span.value.1);
  }

  /** The reading half of `operator[]`: the line's span read through the
      cache and handed to `AddToHistory`. */
  method ReadUncached(t: BigText, disk: seq<bv8>, line: nat, from: nat, to: nat)
    returns (r: BigText, out: Result<seq<bv8>, Error>)
    requires Valid(t) && line < LineCount(LayoutOf(t)) && line !in t.lineCache
    requires LineSpan(LayoutOf(t), line) == Ok((from, to))
    ensures Valid(r) && Keeps(t.file, r.file) && LayoutOf(r) == LayoutOf(t)
    ensures r.maxLinesHeld == t.maxLinesHeld && r.doNotUpdate == t.doNotUpdate
    ensures out != Err(NoSuchLine)
    ensures t.doNotUpdate ==> r.lineCache == t.lineCache && r.history == t.history
    ensures out.Ok? && !t.doNotUpdate ==> line in r.lineCache && r.lineCache[line] == out.value
    ensures out == Err(EmptyHistory) ==> !t.doNotUpdate && t.maxLinesHeld == 0
    ensures BlockCache.Coherent(t.file, disk) ==> BlockCache.Coherent(r.file, disk)
    ensures BlockCache.Coherent(t.file, disk) && CacheSound(t, disk) ==>
      && CacheSound(r, disk)
      && (out != Err(EmptyHistory) ==> out == Expected(LayoutOf(t), disk, line))
  {
    var c, s, err := ReadSpan(t.file, disk, from, to);
    if err.Some? {
      return t.(file := c), Err(FileError(err.value));
    }
    var t1 := t.(file := c);
    var added := AddToHistory(t1, line, s);
    if added.Err? {
      return t1, Err(added.error);
    }
    r := added.value;
    out := Ok(s);
    if BlockCache.Coherent(t.file, disk) && CacheSound(t, disk) {
      assert out == Expected(LayoutOf(t), disk, line);
      AddKeepsSound(t1, line, s, disk);
    }
  }

  /** `CString_F`: the line, followed by a terminating zero byte. */
  method CString(t: BigText, disk: seq<bv8>, line: nat) returns (r: BigText, out: Result<seq<bv8>, Error>)
    requires Valid(t)
    ensures Valid(r) && Keeps(t.file, r.file) && LayoutOf(r) == LayoutOf(t)
    ensures out == Err(NoSuchLine) <==> line >= LineCount(LayoutOf(t))
    ensures out.Ok? ==> |out.value| >= 1 && out.value[|out.value| - 1] == 0
    ensures r.maxLinesHeld == t.maxLinesHeld && r.doNotUpdate == t.doNotUpdate
    ensures line < LineCount(LayoutOf(t)) && line in t.lineCache ==>
      r == t && out == Ok(t.lineCache[line] + [0])
    ensures t.doNotUpdate ==> r.lineCache == t.lineCache && r.history == t.history
    ensures out.Ok? && !t.doNotUpdate ==>
      line in r.lineCache && r.lineCache[line] + [0] == out.value
    ensures BlockCache.Coherent(t.file, disk) && CacheSound(t, disk) ==>
      && CacheSound(r, disk)
      && (out.Ok? ==> Expected(LayoutOf(t), disk, line) == Ok(out.value[..|out.value| - 1]))
      && (out.Err? && out != Err(EmptyHistory) ==> out == Expected(LayoutOf(t), disk, line))
  {
    var s;
    r, s := Get(t, disk, line);
    if s.Err? {
      return r, Err(s.error);
    }
    out := Ok(s.value + [0]);
    assert out.value[..|out.value| - 1] == s.value;
  }

  /** `Purge`: empties the line cache. */
  function Purge(t: BigText): (r: BigText)
    ensures r.lineCache == map[] && r.history == []
    ensures r.file == t.file && LayoutOf(r) == LayoutOf(t)
    ensures r.maxLinesHeld == t.maxLinesHeld && r.doNotUpdate == t.doNotUpdate
    ensures Valid(t) ==> Valid(r)
  {
    t.(lineCache := map[], history := [])
  }

  /** `Refresh`: `Purge`, then `RetrieveLinePositions` on the file as it is
      now. The block cache itself is not re-checked. */
  method Refresh(t: BigText, disk: seq<bv8>) returns (r: BigText, out: Result<(), Error>)
    requires Valid(t)
    ensures Valid(r) && r.lineCache == map[] && r.history == []
    ensures Keeps(t.file, r.file) && r.style == t.style
    ensures r.maxLinesHeld == t.maxLinesHeld && r.doNotUpdate == t.doNotUpdate
    ensures out.Err? ==> !r.lastIsLF
    ensures t.file.dataSize == 0 ==> out.Ok? && r.positions == [] && !r.lastIsLF
    ensures BlockCache.Coherent(t.file, disk) ==>
      && BlockCache.Coherent(r.file, disk)
      && r.positions == PositionsOf(disk, t.style)
      && (out.Ok? <==> !(t.style == TextFile.Windows && |disk| == 1))
      && (out.Ok? ==> r.lastIsLF == EndsWithTerminator(disk, t.style))
    ensures BlockCache.Coherent(t.file, disk) && t.file.dataSize == |disk| && out.Ok? ==>
      LayoutOf(r) == ScannedLayout(disk, t.style) && CacheSound(r, disk)
  {
    r, out := RetrieveLinePositions(Purge(t), disk);
  }

  /** The first `|lines|` lines are what `operator[]` yields for them. */
  predicate AllExpected(l: Layout, disk: seq<bv8>, lines: seq<seq<bv8>>) {
    forall i :: 0 <= i < |lines| ==> Expected(l, disk, i) == Ok(lines[i])
  }

  lemma AllExpectedSnoc(l: Layout, disk: seq<bv8>, lines: seq<seq<bv8>>, s: seq<bv8>)
    requires AllExpected(l, disk, lines) && Expected(l, disk, |lines|) == Ok(s)
    ensures AllExpected(l, disk, lines + [s])
  {
    assert forall i :: 0 <= i < |lines| ==> (lines + [s])[i] == lines[i];
  }

  /** `AllLines`: every line in order, with `doNotUpdate` raised so that the
      line cache is left as it was. An error leaves the flag raised. */
  method AllLines(t: BigText, disk: seq<bv8>) returns (r: BigText, out: Result<seq<seq<bv8>>, Error>)
    requires Valid(t)
    ensures Valid(r) && Keeps(t.file, r.file) && LayoutOf(r) == LayoutOf(t)
    ensures r.lineCache == t.lineCache && r.history == t.history
    ensures r.doNotUpdate <==> out.Err?
    ensures out.Ok? ==> |out.value| == LineCount(LayoutOf(t))
    ensures BlockCache.Coherent(t.file, disk) ==> BlockCache.Coherent(r.file, disk)
    ensures BlockCache.Coherent(t.file, disk) && CacheSound(t, disk) ==>
      && (out.Ok? <==> forall i :: 0 <= i < LineCount(LayoutOf(t)) ==> Expected(LayoutOf(t), disk, i).Ok?)
      && (out.Ok? ==> forall i :: 0 <= i < |out.value| ==> Expected(LayoutOf(t), disk, i) == Ok(out.value[i]))
  {
    var lay := LayoutOf(t);
    ghost var good := BlockCache.Coherent(t.file, disk) && CacheSound(t, disk);
    r := t.(doNotUpdate := true);
    var lines: seq<seq<bv8>> := [];
    var line: nat := 0;
    while line < LineCount(LayoutOf(r))
      invariant Valid(r) && Keeps(t.file, r.file) && LayoutOf(r) == lay
      invariant r.lineCache == t.lineCache && r.history == t.history
      invariant r.doNotUpdate && r.maxLinesHeld == t.maxLinesHeld
      invariant |lines| == line <= LineCount(lay)
      invariant good ==> BlockCache.Coherent(r.file, disk) && CacheSound(r, disk)
      invariant good ==> AllExpected(lay, disk, lines)
      invariant BlockCache.Coherent(t.file, disk) ==> BlockCache.Coherent(r.file, disk)
      decreases LineCount(lay) - line
    {
      ghost var before := r;
      var s;
      r, s := Get(r, disk, line);
      if s.Err? {
        return r, Err(s.error);
      }
      if good {
        AllExpectedSnoc(lay, disk, lines, s.value);
      }
      lines := lines + [s.value];
      line := line + 1;
    }
    r := r.(doNotUpdate := false);
    out := Ok(lines);
  }

  //------------------------------------------------------------------
  // Agreement with the in-memory text file

  /** The layout `RetrieveLinePositions` leaves over a coherent cache when
      its closing test does not raise. */
  function ScannedLayout(disk: seq<bv8>, nl: NewLine): Layout {
    Layout(nl, PositionsOf(disk, nl), EndsWithTerminator(disk, nl), |disk|)
  }

  /** A file ends with a terminator exactly when the scan's last piece is
      empty. */
  lemma EndsWithLastPiece(disk: seq<bv8>, nl: NewLine)
    requires |disk| > 0
    ensures TextFile.LastPieceIsEmpty(disk, nl, 0) <==> EndsWithTerminator(disk, nl)
  {
    var t := TextFile.Terminator(nl);
    TextFile.LastPieceEmpty(disk, nl, 0);
    if |t| <= |disk| {
      assert disk[|disk| - |t|..] == disk[|disk| - |t|..|disk|];
    }
  }

  /** Piece `i` of the scan, read back through the positions, for a one-byte
      terminator: every piece but the empty one after a final terminator. */
  lemma PieceRead(disk: seq<bv8>, nl: NewLine, i: nat)
    requires nl != TextFile.Windows && |disk| > 0
    requires Spans(disk, TextFile.Pieces(disk, nl, 0), Terminators(disk, nl, 0), 1, 0)
    requires i < |Terminators(disk, nl, 0)| || (i == |Terminators(disk, nl, 0)| && !EndsWithTerminator(disk, nl))
    ensures i < LineCount(ScannedLayout(disk, nl))
    ensures Expected(ScannedLayout(disk, nl), disk, i) == Ok(TextFile.Pieces(disk, nl, 0)[i])
  {
    var l := ScannedLayout(disk, nl);
    var ps := Terminators(disk, nl, 0);
    var p := TextFile.Pieces(disk, nl, 0);
    assert l.positions == [0] + ps;
    var a := PieceStart(ps, 0, i);
    var b := PieceEnd(ps, |disk|, 1, i);
    assert 0 <= a <= b <= |disk| && p[i] == disk[a..b];
    if i > 0 {
      assert l.positions[i] == ps[i - 1];
    }
    if i < |ps| {
      assert l.positions[i + 1] == ps[i];
    }
    assert LineSpan(l, i) == Ok((a, b));
  }

  /** For LF and CR files, the lines `operator[]` reads are the lines of the
      in-memory text file; a file that ends with a terminator reports two
      lines more than it has. */
  lemma LinesMatchText(disk: seq<bv8>, nl: NewLine)
    requires nl != TextFile.Windows && |disk| > 0
    ensures LineCount(ScannedLayout(disk, nl))
      == |TextFile.Lines(disk, nl)| + (if EndsWithTerminator(disk, nl) then 2 else 0)
    ensures forall i :: 0 <= i < |TextFile.Lines(disk, nl)| ==>
      Expected(ScannedLayout(disk, nl), disk, i) == Ok(TextFile.Lines(disk, nl)[i])
  {
    var p := TextFile.Pieces(disk, nl, 0);
    var ps := Terminators(disk, nl, 0);
    PiecesBetweenTerminators(disk, nl, 0);
    EndsWithLastPiece(disk, nl);
    var lines := TextFile.Lines(disk, nl);
    assert |lines| == |ps| + (if EndsWithTerminator(disk, nl) then 0 else 1);
    forall i | 0 <= i < |lines|
      ensures Expected(ScannedLayout(disk, nl), disk, i) == Ok(lines[i])
    {
      PieceRead(disk, nl, i);
      assert lines[i] == p[i];
    }
  }

  /** The two surplus lines of a terminated LF or CR file index past the
      scanned positions. */
  lemma SurplusLinesPastPositions(disk: seq<bv8>, nl: NewLine, i: nat)
    requires nl != TextFile.Windows && EndsWithTerminator(disk, nl)
    requires |TextFile.Lines(disk, nl)| <= i < LineCount(ScannedLayout(disk, nl))
    ensures Expected(ScannedLayout(disk, nl), disk, i) == Err(PastPositions)
  {
    LinesMatchText(disk, nl);
    PiecesBetweenTerminators(disk, nl, 0);
    EndsWithLastPiece(disk, nl);
  }

  /** For CR LF files the positions hold each LF, and a line starts two
      bytes after it: "a\r\nbc" reads as "a\r" and "c", where the in-memory
      text file has "a" and "bc". */
  lemma WindowsLinesShifted()
    ensures var d: seq<bv8> := [97, 13, 10, 98, 99];
      && Expected(ScannedLayout(d, TextFile.Windows), d, 0) == Ok([97, 13])
      && Expected(ScannedLayout(d, TextFile.Windows), d, 1) == Ok([99])
      && TextFile.Lines(d, TextFile.Windows) == [[97], [98, 99]]
  {
    var d: seq<bv8> := [97, 13, 10, 98, 99];
    var w := TextFile.Windows;
    assert TextFile.Terminator(w) == [13, 10];
    assert Terminators(d, w, 5) == [];
    assert Terminators(d, w, 4) == [];
    assert Terminators(d, w, 3) == [];
    assert d[1..3] == [13, 10];
    assert Terminators(d, w, 1) == [2];
    assert d[0..2] != [13, 10];
    assert Terminators(d, w, 0) == [2];
    assert !EndsWithTerminator(d, w) by {
      assert d[3..] == [98, 99];
    }
    var l := ScannedLayout(d, w);
    assert l.positions == [0, 2];
    assert LineSpan(l, 0) == Ok((0, 2));
    assert LineSpan(l, 1) == Ok((4, 5));
    assert d[0..2] == [97, 13] && d[4..5] == [99];
    var r5 := TextFile.Pieces(d, w, 5);
    assert r5 == [[]];
    var r4 := TextFile.Pieces(d, w, 4);
    assert r4 == [[d[4]] + r5[0]] + r5[1..];
    assert [d[4]] + r5[0] == [99] && r5[1..] == [];
    assert r4 == [[99]];
    var r3 := TextFile.Pieces(d, w, 3);
    assert r3 == [[d[3]] + r4[0]] + r4[1..];
    assert [d[3]] + r4[0] == [98, 99] && r4[1..] == [];
    assert r3 == [[98, 99]];
    var r1 := TextFile.Pieces(d, w, 1);
    assert r1 == [[]] + r3;
    var r0 := TextFile.Pieces(d, w, 0);
    assert r0 == [[d[0]] + r1[0]] + r1[1..];
    assert [d[0]] + r1[0] == [97] && r1[1..] == [[98, 99]];
    assert r0 == [[97], [98, 99]];
  }

  /** With room for two lines, reading lines 0, 1 and 2 leaves lines 1 and
      2 cached: the oldest line goes first. */
  lemma HistoryIsFifo(t: BigText, s0: seq<bv8>, s1: seq<bv8>, s2: seq<bv8>)
    requires t.history == [] && t.lineCache == map[] && t.maxLinesHeld == 2 && !t.doNotUpdate
    ensures var a := AddToHistory(t, 0, s0);
      && a.Ok?
      && var b := AddToHistory(a.value, 1, s1);
      && b.Ok?
      && var c := AddToHistory(b.value, 2, s2);
      && c.Ok? && c.value.history == [1, 2]
      && c.value.lineCache == map[1 := s1, 2 := s2]
  {
    FirstTwoLines(t, s0, s1);
    var b := AddToHistory(AddToHistory(t, 0, s0).value, 1, s1).value;
    AddToHistoryEffect(b, 2, s2);
    assert b.history[1..] == [1];
    assert b.lineCache - {0} == map[1 := s1];
  }

  /** The first two lines of `HistoryIsFifo` fill the history. */
  lemma FirstTwoLines(t: BigText, s0: seq<bv8>, s1: seq<bv8>)
    requires t.history == [] && t.lineCache == map[] && t.maxLinesHeld == 2 && !t.doNotUpdate
    ensures var a := AddToHistory(t, 0, s0);
      && a.Ok?
      && var b := AddToHistory(a.value, 1, s1);
      && b.Ok? && b.value.history == [0, 1] && b.value.lineCache == map[0 := s0, 1 := s1]
      && b.value.maxLinesHeld == 2 && !b.value.doNotUpdate
  {
    AddToHistoryEffect(t, 0, s0);
    var a := AddToHistory(t, 0, s0).value;
    assert a.history == [0] && a.lineCache == map[0 := s0];
    AddToHistoryEffect(a, 1, s1);
  }

  /** What `AddToHistory` does when it does not raise: the oldest line goes
      when the history is full, then the new line is appended and stored. */
  lemma AddToHistoryEffect(t: BigText, line: nat, s: seq<bv8>)
    requires !t.doNotUpdate && !(|t.history| == t.maxLinesHeld && t.history == [])
    ensures var full := |t.history| == t.maxLinesHeld;
      var r := AddToHistory(t, line, s);
      && r.Ok?
      && r.value.history == (if full then t.history[1..] else t.history) + [line]
      && r.value.lineCache == (if full then t.lineCache - {t.history[0]} else t.lineCache)[line := s]
      && r.value.file == t.file && r.value.maxLinesHeld == t.maxLinesHeld
  {
  }
}
