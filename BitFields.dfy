/** The bits and bit fields of a BitmappedField: a run of bits inside a 1-, 2- or 4-byte
    unsigned unit, read and written through the unit's UInt32 value. */
module BitFields {
  import opened Integers
  import opened BitArithmetic

  /** C# takes the count of a shift of a 32-bit operand modulo 32 (its low five bits). */
  function ShiftCount(n: int): (k: nat)
    ensures k < 32
    ensures 0 <= n < 32 ==> k == n
  {
    n % 32
  }

  /** x << s on a UInt32. */
  function ShiftLeft(x: nat, s: nat): (r: nat)
    ensures r < Pow2(32)
  {
    LowBits(ShiftUp(x, s), 32)
  }

  /** The mask (UInt32)(1 << numBits) - 1 as the source computes it. Since 1 << 32 is 1 in
      C#, a 32-bit field gets the empty mask. */
  function AsWrittenMask(numBits: int): (m: nat)
    ensures m < Pow2(32)
  {
    Pow2Monotone(ShiftCount(numBits), 32);
    Pow2(ShiftCount(numBits)) - 1
  }

  /** The mask of a numBits-wide field, where 32 bits cover the whole unit. */
  function FieldMask(numBits: int): (m: nat)
    ensures m < Pow2(32)
  {
    if numBits == 32 then Pow2(32) - 1 else AsWrittenMask(numBits)
  }

  /** BitField.Value's getter as the source writes it: the unit shifted down by the
      offset and ANDed with AsWrittenMask. */
  function GetBitsAsWritten(unit: UInt32, offset: int, numBits: int): (r: UInt32)
  {
    Pow2Widths();
    BitAndBound(ShiftRight(unit, ShiftCount(offset)), AsWrittenMask(numBits), 32);
    BitAnd(ShiftRight(unit, ShiftCount(offset)), AsWrittenMask(numBits))
  }

  /** BitField.Value's setter as the source writes it: the unit ANDed with the complement
      of AsWrittenMask shifted to the offset, ORed with the value shifted to the offset.
      The value is not masked to the field's width. */
  function SetBitsAsWritten(unit: UInt32, offset: int, numBits: int, value: UInt32): (r: UInt32)
  {
    var cleared := BitAnd(unit, BitNot(ShiftLeft(AsWrittenMask(numBits), ShiftCount(offset)), 32));
    Pow2Widths();
    BitAndBound(unit, BitNot(ShiftLeft(AsWrittenMask(numBits), ShiftCount(offset)), 32), 32);
    BitOrBound(cleared, ShiftLeft(value, ShiftCount(offset)), 32);
    BitOr(cleared, ShiftLeft(value, ShiftCount(offset)))
  }

  /** BitField.Value's getter over the unit: shift the field down and mask it. */
  function GetBits(unit: UInt32, offset: int, numBits: int): (r: UInt32)
  {
    Pow2Widths();
    BitAndBound(ShiftRight(unit, ShiftCount(offset)), FieldMask(numBits), 32);
    BitAnd(ShiftRight(unit, ShiftCount(offset)), FieldMask(numBits))
  }

  /** BitField.Value's setter over the unit: clear the field's bits and OR in the value
      shifted to the field's offset. The value is not masked to the field's width. */
  function SetBits(unit: UInt32, offset: int, numBits: int, value: UInt32): (r: UInt32)
  {
    var cleared := BitAnd(unit, BitNot(ShiftLeft(FieldMask(numBits), ShiftCount(offset)), 32));
    Pow2Widths();
    BitAndBound(unit, BitNot(ShiftLeft(FieldMask(numBits), ShiftCount(offset)), 32), 32);
    BitOrBound(cleared, ShiftLeft(value, ShiftCount(offset)), 32);
    BitOr(cleared, ShiftLeft(value, ShiftCount(offset)))
  }

  /** The bit offsets the BitmappedField constructor gives its bit fields: each starts
      where the previous one ends (int arithmetic). */
  function BitOffsets(widths: seq<Int32>, start: Int32): (r: seq<Int32>)
    ensures |r| == |widths|
  {
    if widths == [] then [] else [start] + BitOffsets(widths[1..], Wrap32(start + widths[0]))
  }

  /** The first bit field starts at the start, and each next one where the previous ends. */
  lemma {:induction false} BitFieldsAdjacent(widths: seq<Int32>, start: Int32)
    ensures |widths| > 0 ==> BitOffsets(widths, start)[0] == start
    ensures forall i :: 0 <= i < |widths| - 1 ==>
      BitOffsets(widths, start)[i + 1] == Wrap32(BitOffsets(widths, start)[i] as int + widths[i])
  {
    if widths != [] {
      var next := Wrap32(start + widths[0]);
      BitFieldsAdjacent(widths[1..], next);
      var r, rest := BitOffsets(widths, start), BitOffsets(widths[1..], next);
      assert r == [start] + rest;
      forall i | 0 <= i < |widths| - 1
        ensures r[i + 1] == Wrap32(r[i] as int + widths[i])
      {
        if i > 0 {
          var j := i - 1;
          assert 0 <= j < |widths[1..]| - 1;
          assert rest[j + 1] == Wrap32(rest[j] as int + widths[1..][j]);
          assert r[i + 1] == rest[i] && r[i] == rest[i - 1] && widths[i] == widths[1..][i - 1];
        } else {
          assert r[1] == rest[0] == next;
        }
      }
    }
  }

  /** The BitmappedField constructor's loop over its bit fields in declaration order. */
  method ConfigureBitFields(widths: seq<Int32>) returns (offsets: seq<Int32>)
    ensures offsets == BitOffsets(widths, 0)
  {
    offsets := [];
    var index: Int32 := 0;
    var i := 0;
    while i < |widths|
      invariant 0 <= i <= |widths|
      invariant offsets + BitOffsets(widths[i..], index) == BitOffsets(widths, 0)
    {
      assert widths[i..][1..] == widths[i + 1..];
      assert BitOffsets(widths[i..], index) ==
        [index] + BitOffsets(widths[i + 1..], Wrap32(index + widths[i]));
      offsets := offsets + [index];
      index := Wrap32(index + widths[i]);
      i := i + 1;
    }
  }

  /** The UInt32Value setters of Bitmapped1Byte, Bitmapped2Byte and Bitmapped4Byte:
      (byte)value, (UInt16)value and value. */
  function Truncate(x: UInt32, unitBytes: nat): (r: UInt32)
    requires unitBytes in {1, 2, 4}
    ensures r < Pow2(8 * unitBytes)
  {
    Pow2Widths();
    Pow2Monotone(8 * unitBytes, 32);
    LowBits(x, 8 * unitBytes)
  }

  // ---------------------------------------------------------------------------
  // Properties

  /** The field of numBits bits at bit offset, once C# has masked both shift counts, is
      non-empty, narrower than the unit and lies inside it. */
  predicate InsideUnit(offset: int, numBits: int)
  {
    numBits != 32 && 0 < ShiftCount(numBits) && ShiftCount(offset) + ShiftCount(numBits) <= 32
  }

  lemma BitOfShiftLeft32(x: nat, s: nat, k: nat)
    requires k < 32
    ensures Bit(ShiftLeft(x, s), k) == if k < s then 0 else Bit(x, k - s)
  {
    BitOfLowBits(ShiftUp(x, s), 32, k);
    BitOfShiftUp(x, s, k);
  }

  /** Bit k of the unit after a write: below the field the unit's bit, inside the field
      the value's bit, above it the unit's bit OR whatever of the value spills over. */
  lemma {:induction false} BitOfSetBits(unit: UInt32, offset: int, numBits: int, value: UInt32, k: nat)
    requires InsideUnit(offset, numBits) && k < 32
    ensures var o, w := ShiftCount(offset), ShiftCount(numBits);
      Bit(SetBits(unit, offset, numBits, value), k) ==
        if k < o then Bit(unit, k)
        else if k < o + w then Bit(value, k - o)
        else if Bit(unit, k) == 1 || Bit(value, k - o) == 1 then 1 else 0
  {
    var o, w := ShiftCount(offset), ShiftCount(numBits);
    var mask := ShiftLeft(FieldMask(numBits), o);
    var cleared := BitAnd(unit, BitNot(mask, 32));
    var shifted := ShiftLeft(value, o);
    var after := SetBits(unit, offset, numBits, value);
    assert after == BitOr(cleared, shifted);
    BitOfFieldMask(numBits, o, k);
    BitOfCleared(unit, mask, k);
    BitOfShiftLeft32(value, o, k);
    BitOfOr(cleared, shifted, k);
    if k < o {
      assert Bit(shifted, k) == 0 && Bit(cleared, k) == Bit(unit, k);
      assert Bit(after, k) == Bit(unit, k);
    } else if k < o + w {
      assert Bit(mask, k) == 1 && Bit(cleared, k) == 0;
      assert Bit(after, k) == Bit(value, k - o);
    } else {
      assert Bit(mask, k) == 0 && Bit(cleared, k) == Bit(unit, k);
    }
  }

  /** The field's mask shifted to offset o has exactly the field's bits set. */
  lemma BitOfFieldMask(numBits: int, o: nat, k: nat)
    requires numBits != 32 && k < 32
    ensures Bit(ShiftLeft(FieldMask(numBits), o), k) == if o <= k < o + ShiftCount(numBits) then 1 else 0
  {
    var w := ShiftCount(numBits);
    assert FieldMask(numBits) == Pow2(w) - 1;
    BitOfShiftLeft32(Pow2(w) - 1, o, k);
    if k >= o {
      BitOfMask(w, k - o);
    }
  }

  /** unit & ~mask clears the bits the mask has set and keeps the others. */
  lemma BitOfCleared(unit: UInt32, mask: nat, k: nat)
    requires mask < Pow2(32) && k < 32
    ensures Bit(BitAnd(unit, BitNot(mask, 32)), k) == if Bit(mask, k) == 1 then 0 else Bit(unit, k)
  {
    BitOfNot(mask, 32, k);
    BitOfAnd(unit, BitNot(mask, 32), k);
  }

  /** Writing a value that fits the field changes exactly the field's bits: each bit of
      the field becomes the value's bit and every other bit of the unit is kept. */
  lemma SetBitsBits(unit: UInt32, offset: int, numBits: int, value: UInt32, k: nat)
    requires InsideUnit(offset, numBits) && k < 32
    requires value < Pow2(ShiftCount(numBits))
    ensures var o, w := ShiftCount(offset), ShiftCount(numBits);
      Bit(SetBits(unit, offset, numBits, value), k) ==
        if o <= k < o + w then Bit(value, k - o) else Bit(unit, k)
  {
    var o, w := ShiftCount(offset), ShiftCount(numBits);
    BitOfSetBits(unit, offset, numBits, value, k);
    if k >= o + w {
      BitAboveWidth(value, w, k - o);
    }
  }

  /** Bit k of a field read: bit k + offset of the unit, for k below the width. */
  lemma BitOfGetBits(unit: UInt32, offset: int, numBits: int, k: nat)
    requires InsideUnit(offset, numBits)
    ensures Bit(GetBits(unit, offset, numBits), k) ==
      if k < ShiftCount(numBits) then Bit(unit, k + ShiftCount(offset)) else 0
  {
    var o, w := ShiftCount(offset), ShiftCount(numBits);
    var x, m := ShiftRight(unit, o), FieldMask(numBits);
    assert m == Pow2(w) - 1;
    assert GetBits(unit, offset, numBits) == BitAnd(x, m);
    BitOfAnd(x, m, k);
    BitOfShiftRight(unit, o, k);
    BitOfMask(w, k);
  }

  lemma GetBitsBound(unit: UInt32, offset: int, numBits: int)
    requires InsideUnit(offset, numBits)
    ensures GetBits(unit, offset, numBits) < Pow2(ShiftCount(numBits))
  {
    var m := FieldMask(numBits);
    assert m == Pow2(ShiftCount(numBits)) - 1;
    BitAndBound(ShiftRight(unit, ShiftCount(offset)), FieldMask(numBits), ShiftCount(numBits));
  }

  /** A field inside the unit reads back the value written to it, when the value fits its
      width. */
  lemma GetSetBits(unit: UInt32, offset: int, numBits: int, value: UInt32)
    requires InsideUnit(offset, numBits)
    requires value < Pow2(ShiftCount(numBits))
    ensures GetBits(SetBits(unit, offset, numBits, value), offset, numBits) == value
  {
    var o, w := ShiftCount(offset), ShiftCount(numBits);
    var after := SetBits(unit, offset, numBits, value);
    GetBitsBound(after, offset, numBits);
    forall k | 0 <= k < w
      ensures Bit(GetBits(after, offset, numBits), k) == Bit(value, k)
    {
      BitOfGetBits(after, offset, numBits, k);
      SetBitsBits(unit, offset, numBits, value, k + o);
    }
    BitsEqual(GetBits(after, offset, numBits), value, w);
  }

  /** A field inside the unit reads only its own bits: writing another field that does not
      overlap it leaves its value unchanged. */
  lemma DisjointFieldsIndependent(unit: UInt32, offset: int, numBits: int, value: UInt32,
                                  otherOffset: int, otherBits: int)
    requires InsideUnit(offset, numBits) && InsideUnit(otherOffset, otherBits)
    requires value < Pow2(ShiftCount(numBits))
    requires ShiftCount(offset) + ShiftCount(numBits) <= ShiftCount(otherOffset) ||
             ShiftCount(otherOffset) + ShiftCount(otherBits) <= ShiftCount(offset)
    ensures GetBits(SetBits(unit, offset, numBits, value), otherOffset, otherBits) ==
      GetBits(unit, otherOffset, otherBits)
  {
    var after := SetBits(unit, offset, numBits, value);
    var w := ShiftCount(otherBits);
    GetBitsBound(after, otherOffset, otherBits);
    GetBitsBound(unit, otherOffset, otherBits);
    forall k | 0 <= k < w
      ensures Bit(GetBits(after, otherOffset, otherBits), k) == Bit(GetBits(unit, otherOffset, otherBits), k)
    {
      BitOfGetBits(after, otherOffset, otherBits, k);
      BitOfGetBits(unit, otherOffset, otherBits, k);
      SetBitsBits(unit, offset, numBits, value, k + ShiftCount(otherOffset));
    }
    BitsEqual(GetBits(after, otherOffset, otherBits), GetBits(unit, otherOffset, otherBits), w);
  }

  /** Dividing by 2p is halving, then dividing by p; the remainder is twice the
      remainder of the half, plus the bit halving drops. */
  lemma HalveDivMod(x: nat, p: nat)
    requires p > 0
    ensures x / (2 * p) == (x / 2) / p
    ensures x % (2 * p) == 2 * ((x / 2) % p) + x % 2
  {
    var q, r := (x / 2) / p, (x / 2) % p;
    assert x / 2 == p * q + r;
    assert x == 2 * (p * q + r) + x % 2;
    assert x == (2 * p) * q + (2 * r + x % 2);
    DivModUniqueInt(x, 2 * p, q, 2 * r + x % 2);
  }

  /** x >> s is x divided by 2^s. */
  lemma {:induction false} ShiftRightDivides(x: nat, s: nat)
    ensures ShiftRight(x, s) == x / Pow2(s)
  {
    if s > 0 {
      ShiftRightDivides(x / 2, s - 1);
      HalveDivMod(x, Pow2(s - 1));
    }
  }

  /** x & (2^w - 1) keeps the low w bits: x modulo 2^w. */
  lemma {:induction false} AndLowMask(x: nat, w: nat)
    ensures BitAnd(x, Pow2(w) - 1) == x % Pow2(w)
  {
    if w == 0 {
      assert Pow2(w) - 1 == 0;
    } else if x != 0 {
      var p := Pow2(w - 1);
      var m := 2 * p - 1;
      assert Pow2(w) - 1 == m;
      assert m / 2 == p - 1 && m % 2 == 1;
      var low := BitAnd(x / 2, p - 1);
      assert BitAnd(x, m) == 2 * low + x % 2;
      AndLowMask(x / 2, w - 1);
      HalveDivMod(x, p);
      assert 2 * low + x % 2 == x % (2 * p);
    }
  }

  /** The getter as written, for every offset and width: the unit divided by 2 to the
      offset's shift count, modulo 2 to the width's shift count (so modulo 1, which is 0,
      for a 32-bit field). */
  lemma GetBitsAsWrittenDivides(unit: UInt32, offset: int, numBits: int)
    ensures GetBitsAsWritten(unit, offset, numBits) ==
      (unit / Pow2(ShiftCount(offset))) % Pow2(ShiftCount(numBits))
  {
    ShiftRightDivides(unit, ShiftCount(offset));
    AndLowMask(ShiftRight(unit, ShiftCount(offset)), ShiftCount(numBits));
  }

  /** As written, a 32-bit field has the empty mask: it reads as 0 whatever the unit holds,
      where the whole-unit mask reads the unit. */
  lemma FullWidthFieldReadsZero(unit: UInt32, offset: int)
    ensures GetBitsAsWritten(unit, offset, 32) == 0
    ensures GetBitsAsWritten(1, 0, 32) != GetBits(1, 0, 32)
  {
    assert ShiftCount(32) == 0 && ShiftCount(0) == 0;
    assert AsWrittenMask(32) == 0;
    var full := FieldMask(32);
    assert full == Pow2(32) - 1;
    assert GetBits(1, 0, 32) == BitAnd(1, full);
    BitOfMask(32, 0);
    BitOfAnd(1, full, 0);
    assert Bit(BitAnd(1, full), 0) == 1;
  }

  /** As written, a 32-bit field's setter clears nothing: ~(0 << offset) keeps every bit
      of the unit, so the shifted value is ORed into the bits already there. */
  lemma FullWidthWriteOrs(unit: UInt32, offset: int, value: UInt32)
    ensures SetBitsAsWritten(unit, offset, 32, value) == BitOr(unit, ShiftLeft(value, ShiftCount(offset)))
  {
    Pow2Widths();
    var o := ShiftCount(offset);
    assert AsWrittenMask(32) == 0;
    var keep := BitNot(ShiftLeft(0, o), 32);
    forall k | 0 <= k < 32
      ensures Bit(BitAnd(unit, keep), k) == Bit(unit, k)
    {
      EmptyMaskKeepsBit(unit, o, k);
    }
    BitAndBound(unit, keep, 32);
    BitsEqual(BitAnd(unit, keep), unit, 32);
  }

  /** Writing 2 to a 32-bit field of the unit 1 leaves 3 there, not 2. */
  lemma FullWidthWriteKeepsOldBits()
    ensures SetBitsAsWritten(1, 0, 32, 2) == 3
  {
    FullWidthWriteOrs(1, 0, 2);
    Pow2Widths();
    LowPart(2, 32);
    assert BitOr(1, 2) == 3;
  }

  /** A number below 2^w is its own low w bits. */
  lemma LowPart(x: nat, w: nat)
    requires x < Pow2(w)
    ensures LowBits(x, w) == x
  {
    forall k | 0 <= k < w
      ensures Bit(LowBits(x, w), k) == Bit(x, k)
    {
      BitOfLowBits(x, w, k);
    }
    BitsEqual(LowBits(x, w), x, w);
  }

  /** Clearing with the complement of an empty mask keeps every bit of the unit. */
  lemma EmptyMaskKeepsBit(unit: UInt32, o: nat, k: nat)
    requires k < 32
    ensures Bit(BitAnd(unit, BitNot(ShiftLeft(0, o), 32)), k) == Bit(unit, k)
  {
    BitOfShiftLeft32(0, o, k);
    if k >= o {
      BitOfZero(k - o);
    }
    BitOfCleared(unit, ShiftLeft(0, o), k);
  }

  /** With the whole-unit mask a 32-bit field reads back the value written to it, which
      the empty mask of the source cannot do. */
  lemma FullWidthRoundTrip(unit: UInt32, value: UInt32)
    ensures GetBits(SetBits(unit, 0, 32, value), 0, 32) == value
  {
    FullWidthWrite(unit, value);
    FullWidthRead(value);
  }

  /** With the whole-unit mask a 32-bit write replaces the unit by the value. */
  lemma FullWidthWrite(unit: UInt32, value: UInt32)
    ensures SetBits(unit, 0, 32, value) == value
  {
    Pow2Widths();
    forall k | 0 <= k < 32
      ensures Bit(SetBits(unit, 0, 32, value), k) == Bit(value, k)
    {
      FullWidthSetBit(unit, value, k);
    }
    BitsEqual(SetBits(unit, 0, 32, value), value, 32);
  }

  /** With the whole-unit mask a 32-bit read returns the unit. */
  lemma FullWidthRead(unit: UInt32)
    ensures GetBits(unit, 0, 32) == unit
  {
    Pow2Widths();
    var full := FieldMask(32);
    assert full == Pow2(32) - 1;
    assert ShiftRight(unit, ShiftCount(0)) == unit;
    assert GetBits(unit, 0, 32) == BitAnd(unit, full);
    MaskKeepsNarrower(unit, 32);
  }

  /** Masking with the low w bits keeps a number that has no higher bit. */
  lemma MaskKeepsNarrower(x: nat, w: nat)
    requires x < Pow2(w)
    ensures BitAnd(x, Pow2(w) - 1) == x
  {
    var p := Pow2(w);
    AndLowMask(x, w);
    DivModUniqueInt(x, p, 0, x);
  }

  /** Each bit of a 32-bit field written with the whole-unit mask is the value's bit. */
  lemma FullWidthSetBit(unit: UInt32, value: UInt32, k: nat)
    requires k < 32
    ensures Bit(SetBits(unit, 0, 32, value), k) == Bit(value, k)
  {
    Pow2Widths();
    var full := FieldMask(32);
    assert full == Pow2(32) - 1 && ShiftCount(0) == 0;
    var cleared := BitAnd(unit, BitNot(ShiftLeft(full, 0), 32));
    BitOfMask(32, k);
    BitOfShiftLeft32(full, 0, k);
    BitOfCleared(unit, ShiftLeft(full, 0), k);
    BitOfShiftLeft32(value, 0, k);
    BitOfOr(cleared, ShiftLeft(value, 0), k);
  }

  /** The source's definitions differ from the corrected ones only for a 32-bit field. */
  lemma AsWrittenAgrees(unit: UInt32, offset: int, numBits: int, value: UInt32)
    requires numBits != 32
    ensures GetBitsAsWritten(unit, offset, numBits) == GetBits(unit, offset, numBits)
    ensures SetBitsAsWritten(unit, offset, numBits, value) == SetBits(unit, offset, numBits, value)
  {
  }

  /** The setter does not mask its value: 9 written to the 3-bit field at bit 1 of a clear
      byte also sets bit 4, outside the field. */
  lemma WideValueSpills()
    ensures Bit(SetBits(0, 1, 3, 9), 4) == 1
  {
    BitOfSetBits(0, 1, 3, 9, 4);
    assert Bit(9, 3) == Bit(4, 2) == Bit(2, 1) == Bit(1, 0) == 1;
  }

  /** A bit (BitValue) reads back what was written, and the other bits are kept. */
  lemma SetBitRoundTrip(unit: UInt32, offset: int, b: bool, k: nat)
    requires ShiftCount(offset) < 32 && k < 32 && k != ShiftCount(offset)
    ensures (GetBits(SetBits(unit, offset, 1, if b then 1 else 0), offset, 1) != 0) == b
    ensures Bit(SetBits(unit, offset, 1, if b then 1 else 0), k) == Bit(unit, k)
  {
    assert Pow2(ShiftCount(1)) == 2;
    GetSetBits(unit, offset, 1, if b then 1 else 0);
    SetBitsBits(unit, offset, 1, if b then 1 else 0, k);
  }

  /** A field inside a unit of unitBytes bytes survives the unit's truncating setter. */
  lemma TruncatedRoundTrip(unit: UInt32, unitBytes: nat, offset: int, numBits: int, value: UInt32)
    requires unitBytes in {1, 2, 4}
    requires InsideUnit(offset, numBits) && ShiftCount(offset) + ShiftCount(numBits) <= 8 * unitBytes
    requires value < Pow2(ShiftCount(numBits))
    ensures GetBits(Truncate(SetBits(unit, offset, numBits, value), unitBytes), offset, numBits) == value
  {
    var o, w := ShiftCount(offset), ShiftCount(numBits);
    var after := SetBits(unit, offset, numBits, value);
    var kept := Truncate(after, unitBytes);
    GetBitsBound(kept, offset, numBits);
    forall k | 0 <= k < w
      ensures Bit(GetBits(kept, offset, numBits), k) == Bit(value, k)
    {
      BitOfGetBits(kept, offset, numBits, k);
      BitOfLowBits(after, 8 * unitBytes, k + o);
      SetBitsBits(unit, offset, numBits, value, k + o);
    }
    BitsEqual(GetBits(kept, offset, numBits), value, w);
  }

  /** A field inside a unit of unitBytes bytes is not disturbed by the truncating write of
      another field that does not overlap it. */
  lemma TruncatedFieldsIndependent(unit: UInt32, unitBytes: nat, offset: int, numBits: int, value: UInt32,
                                   otherOffset: int, otherBits: int)
    requires unitBytes in {1, 2, 4}
    requires InsideUnit(offset, numBits) && InsideUnit(otherOffset, otherBits)
    requires ShiftCount(otherOffset) + ShiftCount(otherBits) <= 8 * unitBytes
    requires value < Pow2(ShiftCount(numBits))
    requires ShiftCount(offset) + ShiftCount(numBits) <= ShiftCount(otherOffset) ||
             ShiftCount(otherOffset) + ShiftCount(otherBits) <= ShiftCount(offset)
    ensures GetBits(Truncate(SetBits(unit, offset, numBits, value), unitBytes), otherOffset, otherBits) ==
      GetBits(unit, otherOffset, otherBits)
  {
    var o, w := ShiftCount(otherOffset), ShiftCount(otherBits);
    var after := SetBits(unit, offset, numBits, value);
    var kept := Truncate(after, unitBytes);
    GetBitsBound(kept, otherOffset, otherBits);
    GetBitsBound(unit, otherOffset, otherBits);
    forall k | 0 <= k < w
      ensures Bit(GetBits(kept, otherOffset, otherBits), k) == Bit(GetBits(unit, otherOffset, otherBits), k)
    {
      OtherFieldBitKept(unit, unitBytes, offset, numBits, value, otherOffset, otherBits, k);
    }
    BitsEqual(GetBits(kept, otherOffset, otherBits), GetBits(unit, otherOffset, otherBits), w);
  }

  /** Bit k of the other field, after the truncating write, is its bit k before. */
  lemma OtherFieldBitKept(unit: UInt32, unitBytes: nat, offset: int, numBits: int, value: UInt32,
                          otherOffset: int, otherBits: int, k: nat)
    requires unitBytes in {1, 2, 4}
    requires InsideUnit(offset, numBits) && InsideUnit(otherOffset, otherBits)
    requires ShiftCount(otherOffset) + ShiftCount(otherBits) <= 8 * unitBytes
    requires value < Pow2(ShiftCount(numBits))
    requires ShiftCount(offset) + ShiftCount(numBits) <= ShiftCount(otherOffset) ||
             ShiftCount(otherOffset) + ShiftCount(otherBits) <= ShiftCount(offset)
    requires k < ShiftCount(otherBits)
    ensures Bit(GetBits(Truncate(SetBits(unit, offset, numBits, value), unitBytes), otherOffset, otherBits), k) ==
      Bit(GetBits(unit, otherOffset, otherBits), k)
  {
    var kept := Truncate(SetBits(unit, offset, numBits, value), unitBytes);
    BitOfGetBits(kept, otherOffset, otherBits, k);
    BitOfGetBits(unit, otherOffset, otherBits, k);
    TruncatedBitKept(unit, unitBytes, offset, numBits, value, k + ShiftCount(otherOffset));
  }

  /** A bit of the unit below its width and outside the field written is kept. */
  lemma TruncatedBitKept(unit: UInt32, unitBytes: nat, offset: int, numBits: int, value: UInt32, j: nat)
    requires unitBytes in {1, 2, 4} && InsideUnit(offset, numBits)
    requires value < Pow2(ShiftCount(numBits)) && j < 8 * unitBytes
    requires j < ShiftCount(offset) || ShiftCount(offset) + ShiftCount(numBits) <= j
    ensures Bit(Truncate(SetBits(unit, offset, numBits, value), unitBytes), j) == Bit(unit, j)
  {
    BitOfLowBits(SetBits(unit, offset, numBits, value), 8 * unitBytes, j);
    SetBitsBits(unit, offset, numBits, value, j);
  }

  /** The number of bits the first fields take. */
  function Total(widths: seq<Int32>): int
  {
    if widths == [] then 0 else Total(widths[..|widths| - 1]) + widths[|widths| - 1]
  }

  lemma {:induction false} TotalPrefix(widths: seq<Int32>, i: nat)
    requires forall k | 0 <= k < |widths| :: widths[k] >= 0
    requires i <= |widths|
    ensures 0 <= Total(widths[..i]) <= Total(widths)
    decreases |widths|
  {
    if widths != [] {
      var init := widths[..|widths| - 1];
      if i == |widths| {
        assert widths[..i] == widths;
        TotalPrefix(init, |init|);
        assert init[..|init|] == init;
      } else {
        TotalPrefix(init, i);
        assert init[..i] == widths[..i];
      }
    }
  }

  /** Bit fields of positive widths that together fit in a unit of unitBits bits lie one
      after another inside the unit: field i starts where the fields before it end. */
  lemma {:induction false} PackedBitFields(widths: seq<Int32>, unitBits: nat, i: nat)
    requires forall k | 0 <= k < |widths| :: 0 < widths[k] < 32
    requires Total(widths) <= unitBits <= 32
    requires i < |widths|
    ensures BitOffsets(widths, 0)[i] == Total(widths[..i]) == ShiftCount(BitOffsets(widths, 0)[i])
    ensures InsideUnit(BitOffsets(widths, 0)[i], widths[i])
    ensures ShiftCount(BitOffsets(widths, 0)[i]) + ShiftCount(widths[i]) <= unitBits
    ensures ShiftCount(BitOffsets(widths, 0)[i]) + ShiftCount(widths[i]) == Total(widths[..i + 1])
  {
    var offsets := BitOffsets(widths, 0);
    BitFieldsAdjacent(widths, 0);
    TotalPrefix(widths, i);
    TotalPrefix(widths, i + 1);
    assert widths[..i + 1][..i] == widths[..i];
    if i > 0 {
      PackedBitFields(widths, unitBits, i - 1);
      assert widths[..i][..i - 1] == widths[..i - 1];
      assert Total(widths[..i]) == Total(widths[..i - 1]) + widths[i - 1];
      assert offsets[i] == Wrap32(offsets[i - 1] as int + widths[i - 1]);
    }
  }

  lemma {:induction false} TotalMonotone(widths: seq<Int32>, i: nat, j: nat)
    requires forall k | 0 <= k < |widths| :: widths[k] >= 0
    requires i <= j <= |widths|
    ensures Total(widths[..i]) <= Total(widths[..j])
    decreases j - i
  {
    if i < j {
      TotalMonotone(widths, i, j - 1);
      assert widths[..j][..j - 1] == widths[..j - 1];
    }
  }

  /** Two different fields of such a bitmapped field do not overlap. */
  lemma PackedBitFieldsDisjoint(widths: seq<Int32>, unitBits: nat, i: nat, j: nat)
    requires forall k | 0 <= k < |widths| :: 0 < widths[k] < 32
    requires Total(widths) <= unitBits <= 32
    requires i < j < |widths|
    ensures ShiftCount(BitOffsets(widths, 0)[i]) + ShiftCount(widths[i]) <= ShiftCount(BitOffsets(widths, 0)[j])
  {
    PackedBitFields(widths, unitBits, i);
    PackedBitFields(widths, unitBits, j);
    TotalMonotone(widths, i + 1, j);
  }
}
