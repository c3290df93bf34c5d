/** The whole-file reader `ABinaryFile`: the file is one byte blob and every
    access is a bounds-checked index into it. Positions are 64-bit unsigned
    integers in the source, so the bounds test of the multi-byte readers wraps. */
module BinaryFile {
  import opened Wrappers

  /** 2^64: positions and sizes are `uint64_t`. */
  const U64: int := 0x1_0000_0000_0000_0000

  datatype Error =
    | OutOfRange      // ABinaryFileEx("Out of range")
    | WrappedRead     // the wrapped bounds test passed but the read lies past the blob
    | OpenError       // ABinaryFileEx("Open error ..."): stat or fopen failed
    | NotAFile        // ABinaryFileEx("Not a file")
    | ReadError       // ABinaryFileEx("Read error ...")

  /** What the path and descriptor constructors find: `stat` fails, the
      entry is not a regular file, the file cannot be opened for reading,
      or a regular file with its contents. */
  datatype Stat = StatFails | NotRegularFile | OpenFails | RegularFile(contents: seq<bv8>)

  /** `ABinaryFile(path)` and `ABinaryFile(desc)`: the blob is the whole
      file. The file is read as ONE item of `size` bytes, so an empty file
      reads zero items and raises "Read error" as a short read would. */
  function Load(f: Stat): (r: Result<seq<bv8>, Error>)
    ensures r.Ok? <==> f.RegularFile? && |f.contents| > 0
    ensures r.Ok? ==> r.value == f.contents
    ensures f.StatFails? || f.OpenFails? ==> r == Err(OpenError)
    ensures f.NotRegularFile? ==> r == Err(NotAFile)
    ensures f.RegularFile? && |f.contents| == 0 ==> r == Err(ReadError)
  {
    match f
    case StatFails => Err(OpenError)
    case NotRegularFile => Err(NotAFile)
    case OpenFails => Err(OpenError)
    case RegularFile(contents) =>
      var itemsRead := if |contents| == 0 then 0 else 1;
      if itemsRead == 0 then Err(ReadError) else Ok(contents)
  }

  /** `operator[]`: the byte at `pos`, or OutOfRange when `pos >= size`. */
  function ByteAt(blob: seq<bv8>, pos: nat): (r: Result<bv8, Error>)
    requires pos < U64
    ensures r.Err? <==> pos >= |blob|
    ensures r.Ok? ==> r.value == blob[pos]
  {
    if pos >= |blob| then Err(OutOfRange) else Ok(blob[pos])
  }

  /** Shared shape of `B16`/`B32`/`B64`: the source rejects when
      `bytePos + (width - 1) >= size`, computed in 64-bit unsigned arithmetic,
      and otherwise reads `width` bytes (in native byte order, not modelled). */
  function Window(blob: seq<bv8>, pos: nat, width: nat): (r: Result<seq<bv8>, Error>)
    requires pos < U64 && |blob| < U64 && 1 <= width <= 8
    ensures pos + width - 1 < U64 ==> (r == Err(OutOfRange) <==> pos + width - 1 >= |blob|)
    ensures pos + width - 1 < U64 ==> r != Err(WrappedRead)
    ensures r.Ok? ==> pos + width <= |blob| && r.value == blob[pos..pos + width]
    ensures r == Err(WrappedRead) ==> pos + width - 1 >= U64
  {
    if (pos + width - 1) % U64 >= |blob| then Err(OutOfRange)
    else if pos + width <= |blob| then Ok(blob[pos..pos + width])
    else Err(WrappedRead)
  }

  /** `B16`: two bytes at `pos`; raises unless `pos + 1 < size`. */
  function B16(blob: seq<bv8>, pos: nat): (r: Result<seq<bv8>, Error>)
    requires pos < U64 && |blob| < U64
    ensures pos + 1 < U64 ==> (r.Ok? <==> pos + 1 < |blob|)
    ensures r.Ok? ==> pos + 2 <= |blob| && |r.value| == 2 && r.value[0] == blob[pos] && r.value[1] == blob[pos + 1]
  {
    Window(blob, pos, 2)
  }

  /** `B32`: four bytes at `pos`; raises unless `pos + 3 < size`. */
  function B32(blob: seq<bv8>, pos: nat): (r: Result<seq<bv8>, Error>)
    requires pos < U64 && |blob| < U64
    ensures pos + 3 < U64 ==> (r.Ok? <==> pos + 3 < |blob|)
    ensures r.Ok? ==> pos + 4 <= |blob| && r.value == blob[pos..pos + 4]
  {
    Window(blob, pos, 4)
  }

  /** `B64`: eight bytes at `pos`; raises unless `pos + 7 < size`. */
  function B64(blob: seq<bv8>, pos: nat): (r: Result<seq<bv8>, Error>)
    requires pos < U64 && |blob| < U64
    ensures pos + 7 < U64 ==> (r.Ok? <==> pos + 7 < |blob|)
    ensures r.Ok? ==> pos + 8 <= |blob| && r.value == blob[pos..pos + 8]
  {
    Window(blob, pos, 8)
  }

  /** The 64-bit wrap of the bounds test: a position within seven bytes of 2^64
      passes `B64`'s test against any blob longer than six bytes, and the read runs
      off the blob. */
  lemma B64WrapsNearTop(blob: seq<bv8>)
    requires 6 < |blob| < U64
    ensures B64(blob, U64 - 1) == Err(WrappedRead)
  {
    assert (U64 - 1 + 7) % U64 == 6;
  }
}
