/** `FlagUtils`: bit flags kept in an unsigned integer. The templates are
    instantiated at `uint16`, the width the repository uses them with; a bit
    number is a `uint8`. Each operation is specified through `Bit`, the
    value of one bit position, independently of the masks the code builds. */
module FlagUtilities {

  type Flags = bv16

  newtype uint8 = x: int | 0 <= x < 256

  /** `sizeof(uint16_t) * 8`. */
  const Width: uint8 := 16

  /** A bit position of a `uint16`: exactly the values 0 to 15. */
  type Position = bv4

  /** Bit `i` of `f`. */
  predicate Bit(f: Flags, i: Position) {
    (f >> i) & 1 == 1
  }

  //------------------------------------------------------------------
  // One bit position at a time

  lemma BitOfShiftedOne(b: Position, i: Position)
    ensures Bit((1 as Flags) << b, i) <==> i == b
  {
  }

  lemma BitOr(a: Flags, b: Flags, i: Position)
    ensures Bit(a | b, i) == (Bit(a, i) || Bit(b, i))
  {
  }

  lemma BitAnd(a: Flags, b: Flags, i: Position)
    ensures Bit(a & b, i) == (Bit(a, i) && Bit(b, i))
  {
  }

  lemma BitNot(a: Flags, i: Position)
    ensures Bit(!a, i) == !Bit(a, i)
  {
  }

  lemma BitAndNot(a: Flags, b: Flags, i: Position)
    ensures Bit(a & !b, i) == (Bit(a, i) && !Bit(b, i))
  {
  }

  /** Masking with a single bit leaves a non-zero value exactly when that
      bit is set. */
  lemma AndShiftedOne(a: Flags, b: Position)
    ensures a & ((1 as Flags) << b) != 0 <==> Bit(a, b)
  {
  }

  lemma BitXor(a: Flags, b: Flags, i: Position)
    ensures Bit(a ^ b, i) == (Bit(a, i) != Bit(b, i))
  {
  }

  /** The same four facts for every position at once. */
  lemma ShiftedOneBits(b: Position, m: Flags)
    requires m == (1 as Flags) << b
    ensures forall i: Position :: Bit(m, i) <==> i == b
  {
    forall i: Position ensures Bit(m, i) <==> i == b { BitOfShiftedOne(b, i); }
  }

  lemma OrBits(a: Flags, b: Flags, r: Flags)
    requires r == a | b
    ensures forall i: Position :: Bit(r, i) == (Bit(a, i) || Bit(b, i))
  {
    forall i: Position ensures Bit(r, i) == (Bit(a, i) || Bit(b, i)) { BitOr(a, b, i); }
  }

  lemma AndBits(a: Flags, b: Flags, r: Flags)
    requires r == a & b
    ensures forall i: Position :: Bit(r, i) == (Bit(a, i) && Bit(b, i))
  {
    forall i: Position ensures Bit(r, i) == (Bit(a, i) && Bit(b, i)) { BitAnd(a, b, i); }
  }

  lemma AndNotBits(a: Flags, b: Flags, r: Flags)
    requires r == a & !b
    ensures forall i: Position :: Bit(r, i) == (Bit(a, i) && !Bit(b, i))
  {
    forall i: Position ensures Bit(r, i) == (Bit(a, i) && !Bit(b, i)) { BitAndNot(a, b, i); }
  }

  /** A value is zero exactly when none of its bits is set. */
  lemma ZeroIffNoBits(a: Flags)
    ensures a == 0 <==> forall i: Position :: !Bit(a, i)
  {
    if forall i: Position :: !Bit(a, i) {
      assert !Bit(a, 0) && !Bit(a, 1) && !Bit(a, 2) && !Bit(a, 3);
      assert !Bit(a, 4) && !Bit(a, 5) && !Bit(a, 6) && !Bit(a, 7);
      assert !Bit(a, 8) && !Bit(a, 9) && !Bit(a, 10) && !Bit(a, 11);
      assert !Bit(a, 12) && !Bit(a, 13) && !Bit(a, 14) && !Bit(a, 15);
    }
  }

  /** Values with the same bits are equal. */
  lemma SameBits(a: Flags, b: Flags)
    ensures a == b <==> forall i: Position :: Bit(a, i) == Bit(b, i)
  {
    if forall i: Position :: Bit(a, i) == Bit(b, i) {
      var x := a ^ b;
      forall i: Position ensures !Bit(x, i) { BitXor(a, b, i); }
      ZeroIffNoBits(x);
    }
  }

  //------------------------------------------------------------------
  // The operations

  /** `1 << bit` for a bit inside the width. */
  function Mask(bit: uint8): (m: Flags)
    requires bit < Width
    ensures forall i: Position :: Bit(m, i) <==> i == bit as Position
  {
    var m := (1 as Flags) << (bit as Position);
    ShiftedOneBits(bit as Position, m);
    m
  }

  /** `SetFlagBit`: sets one bit; a bit number past the width is ignored. */
  function SetFlagBit(bit: uint8, flags: Flags): (r: Flags)
    ensures bit >= Width ==> r == flags
    ensures bit < Width ==> Bit(r, bit as Position)
    ensures bit < Width ==> forall i: Position :: i != bit as Position ==> Bit(r, i) == Bit(flags, i)
  {
    if bit < Width then
      var m := Mask(bit);
      var r := flags | m;
      OrBits(flags, m, r);
      assert Bit(m, bit as Position);
      r
    else flags
  }

  /** `ClearFlagBit`: clears one bit; a bit number past the width is ignored. */
  function ClearFlagBit(bit: uint8, flags: Flags): (r: Flags)
    ensures bit >= Width ==> r == flags
    ensures bit < Width ==> !Bit(r, bit as Position)
    ensures bit < Width ==> forall i: Position :: i != bit as Position ==> Bit(r, i) == Bit(flags, i)
  {
    if bit < Width then
      var m := Mask(bit);
      var r := flags & !m;
      AndNotBits(flags, m, r);
      assert Bit(m, bit as Position);
      r
    else flags
  }

  /** `IsFlagBitSet`: false past the width. */
  function IsFlagBitSet(bit: uint8, flags: Flags): (r: bool)
    ensures r <==> bit < Width && Bit(flags, bit as Position)
  {
    if bit < Width then
      AndShiftedOne(flags, bit as Position);
      flags & Mask(bit) > 0
    else false
  }

  /** `SetFlags`: every bit of `toSet` is set, the others kept. */
  function SetFlags(toSet: Flags, flags: Flags): (r: Flags)
    ensures forall i: Position :: Bit(r, i) <==> Bit(flags, i) || Bit(toSet, i)
  {
    var r := flags | toSet;
    OrBits(flags, toSet, r);
    r
  }

  /** `ClearFlags`: every bit of `toClear` is cleared, the others kept. */
  function ClearFlags(toClear: Flags, flags: Flags): (r: Flags)
    ensures forall i: Position :: Bit(r, i) <==> Bit(flags, i) && !Bit(toClear, i)
  {
    var r := flags & !toClear;
    AndNotBits(flags, toClear, r);
    r
  }

  /** `AnySet`: some bit of `value` is set in `flags`. */
  function AnySet(value: Flags, flags: Flags): (r: bool)
    ensures r <==> exists i: Position :: Bit(value, i) && Bit(flags, i)
  {
    var x := flags & value;
    AndBits(flags, value, x);
    ZeroIffNoBits(x);
    x > 0
  }

  /** `AllSet`: false for an empty `value`, otherwise every bit of `value`
      is set in `flags`. */
  function AllSet(value: Flags, flags: Flags): (r: bool)
    ensures value == 0 ==> !r
    ensures value != 0 ==> (r <==> forall i: Position :: Bit(value, i) ==> Bit(flags, i))
  {
    if value == 0 then false
    else
      var x := flags & value;
      AndBits(flags, value, x);
      SameBits(x, value);
      x == value
  }

  /** A bit reads as set after setting it and as clear after clearing it. */
  lemma SetThenTest(bit: uint8, flags: Flags)
    requires bit < Width
    ensures IsFlagBitSet(bit, SetFlagBit(bit, flags))
    ensures !IsFlagBitSet(bit, ClearFlagBit(bit, flags))
  {
  }

  /** Clearing a mask undoes setting it on the bits the flags did not
      already have. */
  lemma ClearUndoesSet(mask: Flags, flags: Flags)
    requires flags & mask == 0
    ensures ClearFlags(mask, SetFlags(mask, flags)) == flags
  {
    var r := ClearFlags(mask, SetFlags(mask, flags));
    AndBits(flags, mask, flags & mask);
    ZeroIffNoBits(flags & mask);
    SameBits(r, flags);
  }
}
