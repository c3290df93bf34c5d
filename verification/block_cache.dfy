/** `ABigBinaryFile`: a file seen as a byte array while at most `maxBlocks`
    blocks of `blockSize` bytes are held in a pre-allocated arena.

    The object is modelled as an immutable `Cache` value. Every operation
    returns the next value together with its outcome, because the C++ object
    keeps whatever it changed before an exception left the member function.
    The backing file is not part of the value: operations that read take its
    current contents `disk`, and `FileCheck` takes what `stat` reports. */
module BlockCache {
  import opened Wrappers

  /** Documented block-size range. */
  const MinBlockSize: nat := 256
  const MaxBlockSize: nat := 65535

  datatype Error =
    | ZeroMaxBlocks       // "Zero maximum blocks"
    | FileCheckFailure    // "File check failure: ...": stat failed
    | NotAFile            // "Not a file"
    | OutOfRange          // "Out of range", "Bad block number", "Invalid CopyToBlob parameter"
    | ShortRead           // "Could not load all data"

  /** What `stat` reports about the backing file, with its bytes. */
  datatype FileState = Missing | NotRegular | Regular(contents: seq<bv8>, mtime: int)

  /** The object's state. `blkNumberHistory` is `history`; the arena slot
      that `blockNumAddrMap` gives to `history[i]` is `slots[i]` (see
      `AddrMap`); a slot is marked occupied in `freeSections` exactly when it
      occurs in `slots` (see `InUse`). */
  datatype Cache = Cache(
    blockSize: nat,
    maxBlocks: nat,
    dataSize: nat,
    blockCount: nat,
    /** `blockArray`: one buffer of `blockSize` bytes per slot. */
    arena: seq<seq<bv8>>,
    /** Resident blocks, oldest load first. */
    history: seq<nat>,
    slots: seq<nat>,
    /** `currBlockNum`: block of the fast path, negative when there is none. */
    currBlock: int,
    /** `currentPtr`, as the arena slot it points into. */
    currSlot: nat,
    /** `lastCheck`; `None` is the `LONG_MIN` "never checked" sentinel. */
    lastCheck: Option<int>)

  /** The value after an operation and what the operation returned or raised. */
  datatype Step<T> = Step(cache: Cache, out: Result<T, Error>)

  function Min(a: nat, b: nat): nat { if a <= b then a else b }

  function Zeros(n: nat): (z: seq<bv8>)
    ensures |z| == n && forall i :: 0 <= i < n ==> z[i] == 0
  {
    seq(n, _ => 0)
  }

  /** Number of blocks covering `n` bytes. */
  function CeilDiv(n: nat, d: nat): nat
    requires d > 0
  {
    if n > 0 then (n - 1) / d + 1 else 0
  }

  predicate NoDuplicates(s: seq<nat>) {
    forall i, j :: 0 <= i < j < |s| ==> s[i] != s[j]
  }

  /** Position of `x` in a sequence that holds it. */
  function IndexOf(s: seq<nat>, x: nat): (i: nat)
    requires x in s
    ensures i < |s| && s[i] == x
    ensures forall j :: 0 <= j < i ==> s[j] != x
  {
    if s[0] == x then 0 else 1 + IndexOf(s[1..], x)
  }

  /** The bytes `fread` delivers for block `b`: up to `blockSize` bytes from
      offset `b * blockSize`, fewer at the end of the file. */
  function ReadBlock(disk: seq<bv8>, blockSize: nat, b: nat): (r: seq<bv8>)
    ensures |r| <= blockSize
  {
    var lo := Min(b * blockSize, |disk|);
    var hi := Min(lo + blockSize, |disk|);
    disk[lo..hi]
  }

  /** A block starting at `lo` delivers the file's bytes from `lo`: all
      `blockSize` of them when the file reaches that far, else up to the end. */
  lemma ReadBlockContents(disk: seq<bv8>, blockSize: nat, b: nat, lo: nat)
    requires lo == b * blockSize
    ensures lo + blockSize <= |disk| ==> ReadBlock(disk, blockSize, b) == disk[lo..lo + blockSize]
    ensures lo <= |disk| < lo + blockSize ==> ReadBlock(disk, blockSize, b) == disk[lo..]
  {
  }

  /** Object invariant: what the constructors establish and every member keeps. */
  ghost predicate Valid(c: Cache) {
    && MinBlockSize <= c.blockSize <= MaxBlockSize
    && c.maxBlocks >= 1
    && |c.arena| == c.maxBlocks
    && (forall i :: 0 <= i < |c.arena| ==> |c.arena[i]| == c.blockSize)
    && |c.history| == |c.slots| <= c.maxBlocks
    && NoDuplicates(c.history)
    && NoDuplicates(c.slots)
    && (forall i :: 0 <= i < |c.slots| ==> c.slots[i] < c.maxBlocks)
    && c.currBlock >= -1
    && c.currSlot < c.maxBlocks
  }

  /** Arena slot of a resident block (`blockNumAddrMap[b]`). */
  function SlotOf(c: Cache, b: nat): (i: nat)
    requires Valid(c) && b in c.history
    ensures i < c.maxBlocks && i in c.slots
  {
    c.slots[IndexOf(c.history, b)]
  }

  /** `blockNumAddrMap`. */
  ghost function AddrMap(c: Cache): map<nat, nat>
    requires Valid(c)
  {
    map b | b in c.history :: SlotOf(c, b)
  }

  /** `freeSections`. */
  ghost function InUse(c: Cache): seq<bool>
    requires Valid(c)
  {
    seq(c.maxBlocks, i => i in c.slots)
  }

  /** `blockNumAddrMap` holds at most `maxBlocks` entries, keyed by exactly
      the blocks of `blkNumberHistory`. */
  lemma AddrMapKeys(c: Cache)
    requires Valid(c)
    ensures forall b :: b in AddrMap(c) <==> b in c.history
    ensures |AddrMap(c)| == |c.history| <= c.maxBlocks
  {
    SeqSetCard(c.history);
    assert AddrMap(c).Keys == Elems(c.history);
  }

  /** Distinct resident blocks occupy distinct slots. */
  lemma AddrMapInjective(c: Cache, b1: nat, b2: nat)
    requires Valid(c) && b1 in c.history && b2 in c.history && b1 != b2
    ensures AddrMap(c)[b1] != AddrMap(c)[b2]
  {
    assert IndexOf(c.history, b1) != IndexOf(c.history, b2);
  }

  /** A slot is flagged in `freeSections` exactly when some resident block
      occupies it. */
  lemma InUseMatchesMap(c: Cache, i: nat)
    requires Valid(c) && i < c.maxBlocks
    ensures InUse(c)[i] <==> i in AddrMap(c).Values
  {
    if i in c.slots {
      var k :| 0 <= k < |c.slots| && c.slots[k] == i;
      assert IndexOf(c.history, c.history[k]) == k;
      assert AddrMap(c)[c.history[k]] == i;
    }
  }

  /** `BlockIsLoaded`, declared in the header without a definition:
      whether block `b` is resident. */
  ghost predicate BlockIsLoaded(c: Cache, b: nat)
    requires Valid(c)
  {
    b in AddrMap(c)
  }

  /** `LoadedBlocks`, declared in the header without a definition: the
      resident blocks, never more than `maxBlocks` of them. */
  ghost function LoadedBlocks(c: Cache): (r: set<nat>)
    requires Valid(c)
    ensures forall b :: b in r <==> BlockIsLoaded(c, b)
    ensures forall b :: b in r <==> b in c.history
    ensures |r| <= c.maxBlocks
  {
    AddrMapKeys(c);
    AddrMap(c).Keys
  }

  function Elems(s: seq<nat>): set<nat> { set x | x in s }

  lemma {:induction false} SeqSetCard(s: seq<nat>)
    requires NoDuplicates(s)
    ensures |Elems(s)| == |s|
  {
    if |s| > 0 {
      SeqSetCard(s[1..]);
      assert s[0] !in Elems(s[1..]);
      assert Elems(s) == Elems(s[1..]) + {s[0]};
    }
  }

  /** Every resident slot starts with the bytes of its block in `disk`. */
  ghost predicate SlotsHold(c: Cache, disk: seq<bv8>)
    requires Valid(c)
  {
    forall b :: b in c.history ==>
      var data := ReadBlock(disk, c.blockSize, b);
      c.arena[SlotOf(c, b)][..|data|] == data
  }

  /** The fast path is empty or points at the slot of its resident block. */
  ghost predicate FastPathSound(c: Cache)
    requires Valid(c)
  {
    c.currBlock == -1 || (c.currBlock >= 0 && c.currBlock as nat in c.history && SlotOf(c, c.currBlock as nat) == c.currSlot)
  }

  /** `blockCount` is the number of blocks covering `dataSize` bytes, as
      every `FileCheck` sets it. */
  ghost predicate Counted(c: Cache) {
    c.blockSize > 0 && c.blockCount == CeilDiv(c.dataSize, c.blockSize)
  }

  /** The resident blocks agree with the file `disk`. */
  ghost predicate BlocksCoherent(c: Cache, disk: seq<bv8>) {
    Valid(c) && Counted(c) && c.dataSize == |disk| && SlotsHold(c, disk)
  }

  /** The resident blocks and the fast path agree with the file `disk`. */
  ghost predicate Coherent(c: Cache, disk: seq<bv8>) {
    BlocksCoherent(c, disk) && FastPathSound(c)
  }

  //------------------------------------------------------------------
  // Arithmetic of block numbers

  /** `n / d` as a natural number. */
  function Quotient(n: nat, d: nat): (q: nat)
    requires d > 0
    ensures q * d <= n < q * d + d
  {
    n / d
  }

  lemma MulMono(a: nat, b: nat, d: nat)
    requires a <= b
    ensures a * d <= b * d
  {
  }

  lemma DivMono(a: nat, b: nat, d: nat)
    requires d > 0 && a <= b
    ensures a / d <= b / d
  {
    if a / d > b / d {
      MulMono(b / d + 1, a / d, d);
    }
  }

  /** Quotient and remainder are the only ones with a remainder below `d`. */
  lemma DivModUnique(x: nat, d: nat, q: nat, r: nat)
    requires d > 0 && r < d && x == q * d + r
    ensures x / d == q && x % d == r
  {
    if x / d > q {
      MulMono(q + 1, x / d, d);
    } else if x / d < q {
      MulMono(x / d + 1, q, d);
    }
  }

  /** Position `pos` of a file of `n` bytes lies in block `pos / d`, which
      exists, at offset `pos % d`. */
  lemma BlockOfPos(pos: nat, n: nat, d: nat)
    requires d > 0 && pos < n
    ensures pos / d < CeilDiv(n, d)
    ensures (pos / d) * d + pos % d == pos
  {
    DivMono(pos, n - 1, d);
  }

  /** Every block before the last one lies wholly inside the file, and the
      last one starts inside it. */
  lemma BlockExtent(b: nat, n: nat, d: nat)
    requires d > 0 && b < CeilDiv(n, d)
    ensures b * d < n
    ensures b + 1 < CeilDiv(n, d) ==> b * d + d <= n
  {
    MulMono(b, (n - 1) / d, d);
    if b + 1 < CeilDiv(n, d) {
      MulMono(b + 1, (n - 1) / d, d);
    }
  }

  //------------------------------------------------------------------
  // Construction, file check and reset

  /** `DataReset`: forget every resident block and the fast path. Slot bytes
      are left in place (zeroing is switched off by default). */
  function DataReset(c: Cache): (r: Cache)
    requires Valid(c)
    ensures Valid(r)
    ensures r.history == [] && r.currBlock == -1
    ensures forall i :: 0 <= i < r.maxBlocks ==> !InUse(r)[i]
    ensures r.dataSize == c.dataSize && r.blockCount == c.blockCount && r.lastCheck == c.lastCheck
    ensures r.blockSize == c.blockSize && r.maxBlocks == c.maxBlocks
  {
    c.(currBlock := -1, currSlot := 0, history := [], slots := [])
  }

  /** `FileCheck`: fails when `stat` fails or the file is not regular; records
      the modification time on the first check only; afterwards a strictly
      later time resets the cache. Size and block count are always re-read. */
  function FileCheck(c: Cache, f: FileState): (s: Step<()>)
    requires Valid(c)
    ensures Valid(s.cache)
    ensures f.Missing? ==> s == Step(c, Err(FileCheckFailure))
    ensures f.NotRegular? ==> s == Step(c, Err(NotAFile))
    ensures f.Regular? ==>
      && s.out.Ok?
      && s.cache.dataSize == |f.contents|
      && s.cache.blockCount == CeilDiv(|f.contents|, c.blockSize)
      && Counted(s.cache)
      && s.cache.lastCheck == (if c.lastCheck.None? then Some(f.mtime) else c.lastCheck)
    ensures f.Regular? && c.lastCheck.Some? && c.lastCheck.value < f.mtime ==>
      s.cache.history == [] && s.cache.currBlock == -1
    ensures f.Regular? && (c.lastCheck.None? || f.mtime <= c.lastCheck.value) ==>
      s.cache.history == c.history && s.cache.slots == c.slots && s.cache.arena == c.arena
      && s.cache.currBlock == c.currBlock && s.cache.currSlot == c.currSlot
  {
    match f
    case Missing => Step(c, Err(FileCheckFailure))
    case NotRegular => Step(c, Err(NotAFile))
    case Regular(contents, mtime) =>
      var c1 :=
        if c.lastCheck.None? then c.(lastCheck := Some(mtime))
        else if c.lastCheck.value < mtime then DataReset(c)
        else c;
      Step(c1.(dataSize := |contents|, blockCount := CeilDiv(|contents|, c.blockSize)), Ok(()))
  }

  /** `Reset`: `DataReset` followed by `FileCheck`; nothing stays resident
      whatever the outcome. */
  function Reset(c: Cache, f: FileState): (s: Step<()>)
    requires Valid(c)
    ensures Valid(s.cache)
    ensures s.out.Err? <==> !f.Regular?
    ensures s.cache.history == [] && s.cache.currBlock == -1
    ensures f.Regular? ==>
      s.cache.dataSize == |f.contents| && s.cache.blockCount == CeilDiv(|f.contents|, c.blockSize)
    ensures f.Regular? ==> Coherent(s.cache, f.contents)
  {
    FileCheck(DataReset(c), f)
  }

  /** The path constructor: rejects a zero `maxBlocks`, allocates `maxBlocks`
      zeroed slots, then performs the first `FileCheck`. The documented
      block-size range is a precondition, as the source does not check it. */
  function Create(blockSize: nat, maxBlocks: nat, f: FileState): (r: Result<Cache, Error>)
    requires MinBlockSize <= blockSize <= MaxBlockSize
    ensures maxBlocks == 0 ==> r == Err(ZeroMaxBlocks)
    ensures maxBlocks > 0 && f.Missing? ==> r == Err(FileCheckFailure)
    ensures maxBlocks > 0 && f.NotRegular? ==> r == Err(NotAFile)
    ensures r.Ok? <==> maxBlocks > 0 && f.Regular?
    ensures r.Ok? ==>
      && Valid(r.value) && r.value.history == [] && r.value.currBlock == -1
      && r.value.maxBlocks == maxBlocks && r.value.blockSize == blockSize
      && r.value.lastCheck == Some(f.mtime)
    ensures r.Ok? ==>
      Coherent(r.value, f.contents) && r.value.blockCount == CeilDiv(|f.contents|, blockSize)
  {
    if maxBlocks == 0 then Err(ZeroMaxBlocks)
    else
      var c := Cache(blockSize, maxBlocks, 0, 0, seq(maxBlocks, _ => Zeros(blockSize)),
                     [], [], -1, 0, None);
      var s := FileCheck(c, f);
      if s.out.Err? then Err(s.out.error) else Ok(s.cache)
  }

  //------------------------------------------------------------------
  // Loading blocks

  /** First slot not in `slots` at or after `i` (`std::find(freeSections, false)`),
      or `n` when there is none below `n`. */
  function FreeFrom(slots: seq<nat>, i: nat, n: nat): (r: nat)
    requires i <= n
    ensures i <= r <= n
    ensures r < n ==> r !in slots
    ensures forall j :: i <= j < r ==> j in slots
    decreases n - i
  {
    if i == n then n
    else if i !in slots then i
    else FreeFrom(slots, i + 1, n)
  }

  /** The slot `LoadBlock` fills: the first one not occupied. */
  function FirstFree(c: Cache): (r: nat)
    requires Valid(c)
    ensures r <= c.maxBlocks
    ensures r < c.maxBlocks ==> !InUse(c)[r]
    ensures forall j :: 0 <= j < r ==> InUse(c)[j]
  {
    FreeFrom(c.slots, 0, c.maxBlocks)
  }

  lemma Subset(a: set<nat>, b: set<nat>)
    requires a <= b
    ensures |a| <= |b|
  {
    assert b == a + (b - a);
  }

  /** Slot numbers `0 .. n - 1`. */
  function Iota(n: nat): (r: seq<nat>)
    ensures |r| == n && forall i :: 0 <= i < n ==> r[i] == i
  {
    seq(n, i requires 0 <= i => i)
  }

  /** Pigeonhole: fewer resident blocks than slots leaves a slot free. */
  lemma FreeSlotExists(c: Cache)
    requires Valid(c) && |c.history| < c.maxBlocks
    ensures FirstFree(c) < c.maxBlocks
  {
    if FirstFree(c) == c.maxBlocks {
      var ids := Iota(c.maxBlocks);
      var all := Elems(ids);
      var used := Elems(c.slots);
      assert all <= used by {
        forall k | k in all ensures k in used {
          assert InUse(c)[k];
        }
      }
      SeqSetCard(ids);
      SeqSetCard(c.slots);
      Subset(all, used);
      assert false;
    }
  }

  /** Free the slot of the oldest loaded block (`blkNumberHistory[0]`). */
  function Evict(c: Cache): (r: Cache)
    requires Valid(c) && |c.history| > 0
    ensures Valid(r) && |r.history| == |c.history| - 1
    ensures r.history == c.history[1..] && c.history[0] !in r.history
    ensures forall b :: b in r.history ==> SlotOf(r, b) == SlotOf(c, b)
    ensures r.arena == c.arena && r.currBlock == c.currBlock && r.currSlot == c.currSlot
    ensures r.dataSize == c.dataSize && r.blockCount == c.blockCount && r.lastCheck == c.lastCheck
    ensures r.blockSize == c.blockSize && r.maxBlocks == c.maxBlocks
  {
    var r := c.(history := c.history[1..], slots := c.slots[1..]);
    assert forall b :: b in r.history ==> IndexOf(c.history, b) == IndexOf(r.history, b) + 1 by {
      forall b | b in r.history ensures IndexOf(c.history, b) == IndexOf(r.history, b) + 1 {
        var k := IndexOf(r.history, b);
        assert c.history[k + 1] == b;
      }
    }
    r
  }

  /** Overwrite the bytes of a free slot. */
  function WriteSlot(c: Cache, slot: nat, bytes: seq<bv8>): (r: Cache)
    requires Valid(c) && slot < c.maxBlocks && slot !in c.slots && |bytes| == c.blockSize
    ensures r == c.(arena := r.arena) && Valid(r) && r.arena[slot] == bytes
    ensures forall x :: x in c.history ==> SlotOf(r, x) == SlotOf(c, x) && r.arena[SlotOf(c, x)] == c.arena[SlotOf(c, x)]
  {
    c.(arena := c.arena[slot := bytes])
  }

  /** Record block `b` as loaded into the free slot `slot`. */
  function Record(c: Cache, b: nat, slot: nat): (r: Cache)
    requires Valid(c) && |c.history| < c.maxBlocks && b !in c.history
    requires slot < c.maxBlocks && slot !in c.slots
    ensures Valid(r) && r.history == c.history + [b] && SlotOf(r, b) == slot
    ensures forall x :: x in c.history ==> SlotOf(r, x) == SlotOf(c, x)
    ensures r.arena == c.arena && r.currBlock == c.currBlock && r.currSlot == c.currSlot
    ensures r.dataSize == c.dataSize && r.blockCount == c.blockCount && r.lastCheck == c.lastCheck
    ensures r.blockSize == c.blockSize && r.maxBlocks == c.maxBlocks
  {
    var r := c.(history := c.history + [b], slots := c.slots + [slot]);
    assert IndexOf(r.history, b) == |c.history|;
    assert forall x :: x in c.history ==> IndexOf(r.history, x) == IndexOf(c.history, x) by {
      forall x | x in c.history ensures IndexOf(r.history, x) == IndexOf(c.history, x) {
        var k := IndexOf(c.history, x);
        assert r.history[k] == x;
      }
    }
    r
  }

  /** `LoadBlock` (the caller has checked `b` against `blockCount`): a no-op
      for a resident block. Otherwise, with the arena full, the oldest loaded
      block is evicted first, and the block is read into the first free slot.
      A read shorter than `blockSize` is an error unless the block is the last
      one; the eviction and the overwritten slot bytes then remain, but the
      block is not recorded. */
  function LoadBlock(c: Cache, disk: seq<bv8>, b: nat): (s: Step<()>)
    requires Valid(c)
    ensures s.cache.currBlock == c.currBlock && s.cache.currSlot == c.currSlot
    ensures s.cache.dataSize == c.dataSize && s.cache.blockCount == c.blockCount
    ensures s.cache.lastCheck == c.lastCheck && s.cache.blockSize == c.blockSize
    ensures s.cache.maxBlocks == c.maxBlocks
    ensures Valid(s.cache)
    ensures b in c.history ==> s == Step(c, Ok(()))
    ensures b !in c.history ==>
      var kept := if |c.history| == c.maxBlocks then c.history[1..] else c.history;
      && (s.out.Ok? ==> s.cache.history == kept + [b])
      && (s.out.Err? ==> s.cache.history == kept && s.out.error == ShortRead)
    ensures s.out.Err? <==>
      b !in c.history && |ReadBlock(disk, c.blockSize, b)| < c.blockSize && b != c.blockCount - 1
    ensures s.out.Ok? ==> b in s.cache.history
    ensures forall x :: x in s.cache.history && x != b ==>
      x in c.history && SlotOf(s.cache, x) == SlotOf(c, x)
      && s.cache.arena[SlotOf(c, x)] == c.arena[SlotOf(c, x)]
    ensures s.out.Ok? && b !in c.history ==>
      var data := ReadBlock(disk, c.blockSize, b);
      s.cache.arena[SlotOf(s.cache, b)][..|data|] == data
  {
    if b in c.history then Step(c, Ok(()))
    else FillSlot(MakeRoom(c), disk, b)
  }

  /** The first half of loading a block: with the arena full, the oldest
      loaded block is evicted. */
  function MakeRoom(c: Cache): (r: Cache)
    requires Valid(c)
    ensures Valid(r) && |r.history| < r.maxBlocks
    ensures r.history == if |c.history| == c.maxBlocks then c.history[1..] else c.history
    ensures forall x :: x in r.history ==> SlotOf(r, x) == SlotOf(c, x)
    ensures r.arena == c.arena && r.currBlock == c.currBlock && r.currSlot == c.currSlot
    ensures r.dataSize == c.dataSize && r.blockCount == c.blockCount && r.lastCheck == c.lastCheck
    ensures r.blockSize == c.blockSize && r.maxBlocks == c.maxBlocks
  {
    if |c.history| == c.maxBlocks then Evict(c) else c
  }

  /** The second half of loading a block: the block is read into the first
      free slot and recorded, unless the read is short and the block is not
      the last one. */
  function FillSlot(c: Cache, disk: seq<bv8>, b: nat): (s: Step<()>)
    requires Valid(c) && |c.history| < c.maxBlocks && b !in c.history
    ensures s.cache.currBlock == c.currBlock && s.cache.currSlot == c.currSlot
    ensures s.cache.dataSize == c.dataSize && s.cache.blockCount == c.blockCount
    ensures s.cache.lastCheck == c.lastCheck && s.cache.blockSize == c.blockSize
    ensures s.cache.maxBlocks == c.maxBlocks
    ensures Valid(s.cache)
    ensures s.out.Ok? ==> s.cache.history == c.history + [b]
    ensures s.out.Err? ==> s.cache.history == c.history && s.out.error == ShortRead
    ensures s.out.Err? <==> |ReadBlock(disk, c.blockSize, b)| < c.blockSize && b != c.blockCount - 1
    ensures forall x :: x in c.history ==>
      SlotOf(s.cache, x) == SlotOf(c, x) && s.cache.arena[SlotOf(c, x)] == c.arena[SlotOf(c, x)]
    ensures s.out.Ok? ==>
      var data := ReadBlock(disk, c.blockSize, b);
      s.cache.arena[SlotOf(s.cache, b)][..|data|] == data
  {
    FreeSlotExists(c);
    var slot := FirstFree(c);
    var data := ReadBlock(disk, c.blockSize, b);
    var c2 := WriteSlot(c, slot, data + c.arena[slot][|data|..]);
    if |data| < c.blockSize && b != c.blockCount - 1 then
      Step(c2, Err(ShortRead))
    else
      Step(Record(c2, b, slot), Ok(()))
  }

  /** `Preload`: load a block ahead of use; block numbers past the end are
      ignored. The fast path is left as it is. */
  function Preload(c: Cache, disk: seq<bv8>, b: nat): (s: Step<()>)
    requires Valid(c)
    ensures Valid(s.cache)
    ensures b >= c.blockCount ==> s == Step(c, Ok(()))
    ensures b < c.blockCount ==> s == LoadBlock(c, disk, b)
    ensures s.cache.currBlock == c.currBlock && s.cache.currSlot == c.currSlot
  {
    if b >= c.blockCount then Step(c, Ok(())) else LoadBlock(c, disk, b)
  }

  /** Block holding position `pos`. */
  function BlockOf(c: Cache, pos: nat): nat
    requires Valid(c)
  {
    Quotient(pos, c.blockSize)
  }

  /** Offset of position `pos` inside its block. */
  function OffsetOf(c: Cache, pos: nat): (off: nat)
    requires Valid(c)
    ensures off < c.blockSize
  {
    pos % c.blockSize
  }

  /** `operator[]`: out of range past `dataSize`; otherwise the byte at
      `OffsetOf(pos)` of block `BlockOf(pos)`, read through the fast path
      when that block is `currBlockNum`, else after `LoadBlock`, the loaded
      block then becoming the fast path. */
  function ByteAt(c: Cache, disk: seq<bv8>, pos: nat): (s: Step<bv8>)
    requires Valid(c)
    ensures s.cache.dataSize == c.dataSize && s.cache.blockCount == c.blockCount
    ensures s.cache.lastCheck == c.lastCheck && s.cache.blockSize == c.blockSize
    ensures s.cache.maxBlocks == c.maxBlocks
    ensures Valid(s.cache)
    ensures s.out == Err(OutOfRange) <==> pos >= c.dataSize
    ensures pos >= c.dataSize ==> s.cache == c
    ensures s.out.Err? ==> s.cache.currBlock == c.currBlock && s.cache.currSlot == c.currSlot
    ensures s.out.Ok? ==>
      && s.cache.currBlock == BlockOf(c, pos)
      && s.out.value == s.cache.arena[s.cache.currSlot][OffsetOf(c, pos)]
    ensures s.out.Ok? && BlockOf(c, pos) != c.currBlock ==>
      && BlockOf(c, pos) in s.cache.history
      && SlotOf(s.cache, BlockOf(c, pos)) == s.cache.currSlot
  {
    if pos >= c.dataSize then Step(c, Err(OutOfRange))
    else
      var b := BlockOf(c, pos);
      var off := OffsetOf(c, pos);
      if b == c.currBlock then Step(c, Ok(c.arena[c.currSlot][off]))
      else
        var l := LoadBlock(c, disk, b);
        if l.out.Err? then Step(l.cache, Err(ShortRead))
        else
          var slot := SlotOf(l.cache, b);
          Step(l.cache.(currBlock := b, currSlot := slot), Ok(l.cache.arena[slot][off]))
  }

  /** `LastBlockSize`: `dataSize % blockSize`, which is 0 when the size is an
      exact multiple of the block size. */
  function LastBlockSize(c: Cache): (r: nat)
    requires Valid(c)
    ensures r < c.blockSize
  {
    c.dataSize % c.blockSize
  }

  /** Bytes `CopyBlock_F` takes from a block: all of it unless it is the last
      block, then `LastBlockSize`. */
  function BlockBytes(c: Cache, b: nat): (n: nat)
    requires Valid(c)
    ensures n <= c.blockSize
  {
    if b == c.blockCount - 1 then LastBlockSize(c) else c.blockSize
  }

  /** `CopyBlock_F`: a `blockSize` buffer, zero-filled, holding the block's
      first `BlockBytes` bytes; the block is loaded first, but the fast path
      is not updated. */
  function CopyBlock(c: Cache, disk: seq<bv8>, b: nat): (s: Step<seq<bv8>>)
    requires Valid(c)
    ensures Valid(s.cache)
    ensures b >= c.blockCount ==> s == Step(c, Err(OutOfRange))
    ensures b < c.blockCount ==>
      s.cache == LoadBlock(c, disk, b).cache && (s.out.Err? <==> LoadBlock(c, disk, b).out.Err?)
    ensures s.out.Ok? ==>
      && b in s.cache.history && |s.out.value| == c.blockSize
      && s.out.value[..BlockBytes(c, b)] == s.cache.arena[SlotOf(s.cache, b)][..BlockBytes(c, b)]
      && forall i :: BlockBytes(c, b) <= i < c.blockSize ==> s.out.value[i] == 0
    ensures s.cache.currBlock == c.currBlock && s.cache.currSlot == c.currSlot
  {
    if b >= c.blockCount then Step(c, Err(OutOfRange))
    else
      var l := LoadBlock(c, disk, b);
      if l.out.Err? then Step(l.cache, Err(ShortRead))
      else
        var n := BlockBytes(c, b);
        Step(l.cache, Ok(l.cache.arena[SlotOf(l.cache, b)][..n] + Zeros(c.blockSize - n)))
  }

  /** Outcome of `CopyToBlob`: the zero-filled destination and the count
      returned, or a plain `fread` from the stream's current position when the
      block is not resident. */
  datatype BlobCopy = Copied(dest: seq<bv8>, count: nat) | StreamRead

  /** `CopyToBlob`: never loads. A resident block gives at most `size` and at
      most `blockSize` bytes, capped at `LastBlockSize` for the last block. */
  function CopyToBlob(c: Cache, size: nat, b: nat): (r: Result<BlobCopy, Error>)
    requires Valid(c) && size < 0x1_0000
    ensures r.Err? <==> b >= c.blockCount
    ensures r.Ok? ==> (r.value.Copied? <==> b in c.history)
    ensures r.Ok? && r.value.Copied? ==>
      var n := r.value.count;
      && n <= size && n <= BlockBytes(c, b)
      && (n == size || n == BlockBytes(c, b))
      && |r.value.dest| == size
      && r.value.dest[..n] == c.arena[SlotOf(c, b)][..n]
      && forall i :: n <= i < size ==> r.value.dest[i] == 0
  {
    if b >= c.blockCount then Err(OutOfRange)
    else if b in c.history then
      var m := if size > c.blockSize then c.blockSize else size;
      var n := if b == c.blockCount - 1 && m > LastBlockSize(c) then LastBlockSize(c) else m;
      Ok(Copied(c.arena[SlotOf(c, b)][..n] + Zeros(size - n), n))
    else Ok(StreamRead)
  }

  //------------------------------------------------------------------
  // Reads agree with the file

  /** Byte `pos` of the file is at offset `pos % d` of what block `pos / d` reads. */
  lemma ByteInBlock(disk: seq<bv8>, d: nat, pos: nat)
    requires d > 0 && pos < |disk|
    ensures pos % d < |ReadBlock(disk, d, pos / d)|
    ensures ReadBlock(disk, d, pos / d)[pos % d] == disk[pos]
  {
    BlockOfPos(pos, |disk|, d);
    ReadBlockContents(disk, d, pos / d, (pos / d) * d);
  }

  /** With the resident blocks agreeing with the file, loading an existing
      block succeeds and keeps them agreeing. */
  lemma CoherentLoad(c: Cache, disk: seq<bv8>, b: nat)
    requires BlocksCoherent(c, disk) && b < c.blockCount
    ensures LoadBlock(c, disk, b).out.Ok?
    ensures BlocksCoherent(LoadBlock(c, disk, b).cache, disk)
  {
    var s := LoadBlock(c, disk, b);
    BlockExtent(b, c.dataSize, c.blockSize);
    ReadBlockContents(disk, c.blockSize, b, b * c.blockSize);
    assert s.out.Ok?;
    forall x | x in s.cache.history
      ensures s.cache.arena[SlotOf(s.cache, x)][..|ReadBlock(disk, c.blockSize, x)|] == ReadBlock(disk, c.blockSize, x)
    {
      if x != b {
        assert SlotOf(s.cache, x) == SlotOf(c, x);
      }
    }
  }

  /** `operator[]` on a cache that agrees with the file returns the file's
      byte, or raises past the end, and the cache still agrees afterwards. */
  lemma CoherentByteAt(c: Cache, disk: seq<bv8>, pos: nat)
    requires Coherent(c, disk)
    ensures pos < |disk| ==> ByteAt(c, disk, pos).out == Ok(disk[pos])
    ensures pos >= |disk| ==> ByteAt(c, disk, pos).out == Err(OutOfRange)
    ensures Coherent(ByteAt(c, disk, pos).cache, disk)
  {
    if pos < |disk| {
      var s := ByteAt(c, disk, pos);
      var b := BlockOf(c, pos);
      ByteInBlock(disk, c.blockSize, pos);
      BlockOfPos(pos, |disk|, c.blockSize);
      if b != c.currBlock {
        CoherentLoad(c, disk, b);
      }
      assert b in s.cache.history && SlotOf(s.cache, b) == s.cache.currSlot;
    }
  }

  /** How one `operator[]` on a cache that agrees with the file changes the
      load history: unchanged for a resident block, otherwise the block is
      appended, after dropping the oldest entry when the arena is full. */
  lemma ReadHistory(c: Cache, disk: seq<bv8>, pos: nat)
    requires Coherent(c, disk) && pos < |disk|
    ensures Coherent(ByteAt(c, disk, pos).cache, disk)
    ensures BlockOf(c, pos) in c.history ==> ByteAt(c, disk, pos).cache.history == c.history
    ensures BlockOf(c, pos) !in c.history ==>
      ByteAt(c, disk, pos).cache.history ==
        (if |c.history| == c.maxBlocks then c.history[1..] else c.history) + [BlockOf(c, pos)]
  {
    CoherentByteAt(c, disk, pos);
    var b := BlockOf(c, pos);
    BlockOfPos(pos, |disk|, c.blockSize);
    if b != c.currBlock {
      CoherentLoad(c, disk, b);
    }
  }

  /** Outcomes of `operator[]` at each position of `ps` in turn, stopping at
      the first exception. */
  function ReadAll(c: Cache, disk: seq<bv8>, ps: seq<nat>): (r: (Cache, seq<Result<bv8, Error>>))
    requires Valid(c)
    ensures Valid(r.0) && |r.1| <= |ps|
    ensures r.0.dataSize == c.dataSize && r.0.blockSize == c.blockSize && r.0.blockCount == c.blockCount
    ensures r.0.maxBlocks == c.maxBlocks
    decreases |ps|
  {
    if ps == [] then (c, [])
    else
      var s := ByteAt(c, disk, ps[0]);
      if s.out.Err? then (s.cache, [s.out])
      else
        var rest := ReadAll(s.cache, disk, ps[1..]);
        (rest.0, [s.out] + rest.1)
  }

  /** As long as only `operator[]` runs on a cache that agrees with the file
      (for instance straight after construction or `Reset`), every result is
      the file's byte: the fast path never goes stale. */
  lemma {:induction false} OnlyReadsAgree(c: Cache, disk: seq<bv8>, ps: seq<nat>)
    requires Coherent(c, disk)
    requires forall i :: 0 <= i < |ps| ==> ps[i] < |disk|
    ensures var r := ReadAll(c, disk, ps);
      && Coherent(r.0, disk)
      && |r.1| == |ps|
      && forall i :: 0 <= i < |ps| ==> r.1[i] == Ok(disk[ps[i]])
    decreases |ps|
  {
    if ps != [] {
      CoherentByteAt(c, disk, ps[0]);
      var s := ByteAt(c, disk, ps[0]);
      OnlyReadsAgree(s.cache, disk, ps[1..]);
      var rest := ReadAll(s.cache, disk, ps[1..]);
      assert ReadAll(c, disk, ps).1 == [s.out] + rest.1;
      ReadsCons(s.out, disk, ps, rest.1);
    }
  }

  /** The outcomes of the first read and of the rest line up with `ps`. */
  lemma ReadsCons(o: Result<bv8, Error>, disk: seq<bv8>, ps: seq<nat>, rest: seq<Result<bv8, Error>>)
    requires |ps| > 0 && ps[0] < |disk| && o == Ok(disk[ps[0]])
    requires forall i :: 0 <= i < |ps| ==> ps[i] < |disk|
    requires |rest| == |ps| - 1
    requires forall i :: 0 <= i < |rest| ==> rest[i] == Ok(disk[ps[1..][i]])
    ensures forall i :: 0 <= i < |ps| ==> ([o] + rest)[i] == Ok(disk[ps[i]])
  {
    forall i | 1 <= i < |ps| ensures ([o] + rest)[i] == Ok(disk[ps[i]]) {
      assert ps[i] == ps[1..][i - 1];
    }
  }

  /** The first two reads of `FifoEviction` fill both slots. */
  lemma FifoTwo(c0: Cache, disk: seq<bv8>)
    requires Coherent(c0, disk) && c0.history == [] && c0.maxBlocks == 2 && c0.blockSize == 256
    requires |disk| > 512
    ensures
      var s1 := ByteAt(c0, disk, 0);
      var s2 := ByteAt(s1.cache, disk, 256);
      && s2.cache.history == [0, 1]
      && Coherent(s2.cache, disk) && s2.cache.maxBlocks == 2 && s2.cache.blockSize == 256
  {
    var s1 := ByteAt(c0, disk, 0);
    ReadHistory(c0, disk, 0);
    assert s1.cache.history == [0];
    ReadHistory(s1.cache, disk, 256);
  }

  /** The first three reads of `FifoEviction`: blocks 0, 1 and 2 are loaded
      in turn into two slots, so block 0 has been evicted. */
  lemma FifoFill(c0: Cache, disk: seq<bv8>)
    requires Coherent(c0, disk) && c0.history == [] && c0.maxBlocks == 2 && c0.blockSize == 256
    requires |disk| > 512
    ensures
      var s3 := ByteAt(ByteAt(ByteAt(c0, disk, 0).cache, disk, 256).cache, disk, 512);
      && s3.cache.history == [1, 2]
      && Coherent(s3.cache, disk) && s3.cache.maxBlocks == 2 && s3.cache.blockSize == 256
  {
    FifoTwo(c0, disk);
    ReadHistory(ByteAt(ByteAt(c0, disk, 0).cache, disk, 256).cache, disk, 512);
  }

  /** Block loads are first in, first out: on an empty cache of two 256-byte
      slots (as `Create` or `Reset` leave it), reading positions 0, 256, 512
      and 0 loads blocks 0, 1, 2 and 0, and the last load evicts block 1,
      which was loaded before block 2, although block 0 was read more
      recently. */
  lemma FifoEviction(c0: Cache, disk: seq<bv8>)
    requires Coherent(c0, disk) && c0.history == [] && c0.maxBlocks == 2 && c0.blockSize == 256
    requires |disk| > 512
    ensures
      var s3 := ByteAt(ByteAt(ByteAt(c0, disk, 0).cache, disk, 256).cache, disk, 512);
      var s4 := ByteAt(s3.cache, disk, 0);
      && s3.cache.history == [1, 2]
      && s4.cache.history == [2, 0]
      && s4.out == Ok(disk[0])
  {
    FifoFill(c0, disk);
    var s3 := ByteAt(ByteAt(ByteAt(c0, disk, 0).cache, disk, 256).cache, disk, 512);
    ReadHistory(s3.cache, disk, 0);
    CoherentByteAt(s3.cache, disk, 0);
  }

  /** The fast path is not invalidated when `Preload` evicts its block: with
      one slot, after reading position `pos` of the fast-path block, preloading
      another block `b` and reading `pos` again returns the byte at the same
      offset of block `b`. */
  lemma PreloadStalesFastPath(c: Cache, disk: seq<bv8>, pos: nat, b: nat, at: nat)
    requires Coherent(c, disk) && c.maxBlocks == 1
    requires pos < |disk| && c.currBlock == BlockOf(c, pos)
    requires b < c.blockCount && b != c.currBlock
    requires at == b * c.blockSize + OffsetOf(c, pos) && at < |disk|
    ensures Preload(c, disk, b).out.Ok?
    ensures ByteAt(Preload(c, disk, b).cache, disk, pos).out == Ok(disk[at])
  {
    var q := Preload(c, disk, b).cache;
    CoherentLoad(c, disk, b);
    assert |c.history| == 1 && c.history[0] == c.currBlock;
    assert q.history == [b];
    assert SlotOf(q, b) == 0 == c.currSlot == q.currSlot;
    assert q.blockSize == c.blockSize && q.dataSize == c.dataSize;
    StaleFastPathByte(q, disk, pos, b, at);
  }

  /** A read through a fast path that points at the slot of another block
      `b` returns the byte of block `b` at the same offset. */
  lemma StaleFastPathByte(c: Cache, disk: seq<bv8>, pos: nat, b: nat, at: nat)
    requires BlocksCoherent(c, disk) && b in c.history && SlotOf(c, b) == c.currSlot
    requires pos < |disk| && c.currBlock == BlockOf(c, pos)
    requires at == b * c.blockSize + OffsetOf(c, pos) && at < |disk|
    ensures ByteAt(c, disk, pos).out == Ok(disk[at])
  {
    BlockSlotByte(c, disk, b, OffsetOf(c, pos));
  }

  /** A resident block of a cache that agrees with the file holds, at offset
      `off`, the file's byte at that offset of the block. */
  lemma BlockSlotByte(c: Cache, disk: seq<bv8>, b: nat, off: nat)
    requires BlocksCoherent(c, disk) && b in c.history
    requires off < c.blockSize && b * c.blockSize + off < |disk|
    ensures c.arena[SlotOf(c, b)][off] == disk[b * c.blockSize + off]
  {
    var data := ReadBlock(disk, c.blockSize, b);
    ReadBlockContents(disk, c.blockSize, b, b * c.blockSize);
    assert off < |data| && data[off] == disk[b * c.blockSize + off];
    assert c.arena[SlotOf(c, b)][..|data|] == data;
  }

  /** A concrete instance: a 512-byte file whose first bytes of block 0 and
      block 1 differ, one slot; read position 0, preload block 1, read
      position 0 again: the byte of block 1 comes back. */
  lemma PreloadStaleExample(disk: seq<bv8>, mtime: int)
    requires |disk| == 512 && disk[0] != disk[256]
    ensures Create(256, 1, Regular(disk, mtime)).Ok?
    ensures
      var c0 := Create(256, 1, Regular(disk, mtime)).value;
      var s1 := ByteAt(c0, disk, 0);
      var s2 := Preload(s1.cache, disk, 1);
      var s3 := ByteAt(s2.cache, disk, 0);
      && s1.out == Ok(disk[0])
      && s3.out == Ok(disk[256])
      && s3.out != Ok(disk[0])
  {
    var c0 := Create(256, 1, Regular(disk, mtime)).value;
    CoherentByteAt(c0, disk, 0);
    var s1 := ByteAt(c0, disk, 0);
    var c1 := s1.cache;
    assert c1.maxBlocks == 1 && c1.blockSize == 256 && c1.blockCount == 2;
    assert c1.currBlock == 0 == BlockOf(c1, 0) && OffsetOf(c1, 0) == 0;
    PreloadStalesFastPath(c1, disk, 0, 1, 256);
  }

  /** `CopyBlock_F` on a cache that agrees with the file copies the block's
      first `BlockBytes` bytes of the file and zero-fills the rest. */
  lemma CoherentCopyBlock(c: Cache, disk: seq<bv8>, b: nat)
    requires BlocksCoherent(c, disk) && b < c.blockCount
    ensures CopyBlock(c, disk, b).out.Ok?
    ensures var v := CopyBlock(c, disk, b).out.value;
      && b * c.blockSize + BlockBytes(c, b) <= |disk|
      && v[..BlockBytes(c, b)] == disk[b * c.blockSize..b * c.blockSize + BlockBytes(c, b)]
      && forall i :: BlockBytes(c, b) <= i < c.blockSize ==> v[i] == 0
    ensures BlocksCoherent(CopyBlock(c, disk, b).cache, disk)
  {
    CoherentLoad(c, disk, b);
    var l := LoadBlock(c, disk, b);
    BlockExtent(b, c.dataSize, c.blockSize);
    ReadBlockContents(disk, c.blockSize, b, b * c.blockSize);
    LastBlockSpan(c, disk);
  }

  /** The last block of a file holds `LastBlockSize` bytes unless the size is
      an exact multiple of the block size; then it is full while
      `LastBlockSize` is 0. */
  lemma LastBlockSpan(c: Cache, disk: seq<bv8>)
    requires Valid(c) && Counted(c) && c.dataSize == |disk| > 0
    ensures var data := ReadBlock(disk, c.blockSize, c.blockCount - 1);
      && (LastBlockSize(c) == 0 <==> |data| == c.blockSize)
      && (LastBlockSize(c) != 0 ==> |data| == LastBlockSize(c))
      && (c.blockCount - 1) * c.blockSize + |data| == |disk|
  {
    var n := |disk|;
    var d := c.blockSize;
    var q := (n - 1) / d;
    assert c.blockCount - 1 == q;
    BlockExtent(q, n, d);
    ReadBlockContents(disk, d, q, q * d);
    assert |ReadBlock(disk, d, q)| == n - q * d;
    LastBlockLength(n, d);
  }

  /** The last of the blocks covering `n` bytes holds `n % d` of them, or a
      full `d` when `n` is an exact multiple. */
  lemma LastBlockLength(n: nat, d: nat)
    requires d > 0 && n > 0
    ensures n % d == 0 ==> n - ((n - 1) / d) * d == d
    ensures n % d != 0 ==> n - ((n - 1) / d) * d == n % d
  {
    var k := n / d;
    var m := n % d;
    assert n == k * d + m;
    if m == 0 {
      assert k >= 1;
      assert n - 1 == (k - 1) * d + (d - 1);
      DivModUnique(n - 1, d, k - 1, d - 1);
    } else {
      DivModUnique(n - 1, d, k, m - 1);
    }
  }

  /** An exact multiple of the block size: `CopyBlock_F` of the last block
      returns only zeros although the file fills the whole block. */
  lemma ExactMultipleLastBlockZeros(c: Cache, disk: seq<bv8>)
    requires BlocksCoherent(c, disk) && |disk| > 0 && |disk| % c.blockSize == 0
    ensures |ReadBlock(disk, c.blockSize, c.blockCount - 1)| == c.blockSize
    ensures CopyBlock(c, disk, c.blockCount - 1).out == Ok(Zeros(c.blockSize))
  {
    LastBlockSpan(c, disk);
    CoherentCopyBlock(c, disk, c.blockCount - 1);
  }

  /** `CopyToBlob` of a resident block on a cache that agrees with the file
      copies the file's bytes of that block. */
  lemma CoherentCopyToBlob(c: Cache, disk: seq<bv8>, size: nat, b: nat)
    requires BlocksCoherent(c, disk) && size < 0x1_0000 && b in c.history && b < c.blockCount
    ensures CopyToBlob(c, size, b).Ok? && CopyToBlob(c, size, b).value.Copied?
    ensures var r := CopyToBlob(c, size, b).value;
      && b * c.blockSize + r.count <= |disk|
      && r.dest[..r.count] == disk[b * c.blockSize..b * c.blockSize + r.count]
  {
    BlockExtent(b, c.dataSize, c.blockSize);
    ReadBlockContents(disk, c.blockSize, b, b * c.blockSize);
    LastBlockSpan(c, disk);
  }

  /** A strictly later modification time makes `FileCheck` drop every block,
      so the cache agrees with whatever the file now holds. */
  lemma LaterFileCheckIsCoherent(c: Cache, contents: seq<bv8>, mtime: int)
    requires Valid(c) && c.lastCheck.Some? && c.lastCheck.value < mtime
    ensures Coherent(FileCheck(c, Regular(contents, mtime)).cache, contents)
  {
  }
}
