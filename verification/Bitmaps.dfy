/** The bitmap allocator of kernel/lib/bitmap.c.

    A `Bitmap` is an array of bytes that is edited in place. Its meaning is the
    sequence of bits `Bits()`, least significant bit of byte 0 first.
  */
module Bitmaps {
  import opened Words

  /** Bit i of a number: the digit of weight 2^i. */
  predicate BitValue(n: nat, i: nat) {
    n / Pow2(i) % 2 == 1
  }

  /** `byte & (1 << i)` */
  predicate BitOf(b: bv8, i: nat)
    requires i < 8
  {
    (b >> i) & 1 == 1
  }

  /** The byte after `|= (1 << i)` or `&= ~(1 << i)`. */
  function PutBit(b: bv8, i: nat, value: bool): bv8
    requires i < 8
  {
    if value then b | (1 << i) else b & !(1 << i)
  }

  lemma PutBitChangesOneBit(b: bv8, i: nat, j: nat, value: bool)
    requires i < 8 && j < 8
    ensures BitOf(PutBit(b, i, value), j) == if i == j then value else BitOf(b, j)
  {
    hide BitOf, PutBit;
    if value {
      OrSetsOneBit(b, i, j);
    } else {
      AndClearsOneBit(b, i, j);
    }
  }

  lemma OrSetsOneBit(b: bv8, i: nat, j: nat)
    requires i < 8 && j < 8
    ensures BitOf(PutBit(b, i, true), j) == (i == j || BitOf(b, j))
  {
    MaskBit(i, j);
    OrBits(b, 1 << i, j);
    hide BitOf;
  }

  lemma AndClearsOneBit(b: bv8, i: nat, j: nat)
    requires i < 8 && j < 8
    ensures BitOf(PutBit(b, i, false), j) == (i != j && BitOf(b, j))
  {
    MaskBit(i, j);
    AndNotBits(b, 1 << i, j);
    hide BitOf;
  }

  lemma MaskBit(i: nat, j: nat)
    requires i < 8 && j < 8
    ensures BitOf(1 << i, j) == (i == j)
  {}

  lemma OrBits(b: bv8, mask: bv8, j: nat)
    requires j < 8
    ensures BitOf(b | mask, j) == (BitOf(b, j) || BitOf(mask, j))
  {}

  lemma AndNotBits(b: bv8, mask: bv8, j: nat)
    requires j < 8
    ensures BitOf(b & !mask, j) == (BitOf(b, j) && !BitOf(mask, j))
  {}

  /** The source's test reads the bit of weight 2^i. */
  lemma BitOfValue(b: bv8, i: nat)
    requires i < 8
    ensures BitOf(b, i) <==> BitValue(b as nat, i)
  {
    ShiftedByte(b, i);
    LowestBit(b >> i);
    hide Pow2;
  }

  lemma ShiftedByte(b: bv8, i: nat)
    requires i < 8
    ensures (b >> i) as nat == b as nat / Pow2(i)
  {
    ByteWeights();
    hide Pow2;
    if i < 4 {
      ShiftedLow(b, i);
    } else {
      ShiftedHigh(b, i);
    }
  }

  lemma ShiftedLow(b: bv8, i: nat)
    requires i < 4
    ensures (b >> i) as nat == b as nat / (if i == 0 then 1 else if i == 1 then 2 else if i == 2 then 4 else 8)
  {}

  lemma ShiftedHigh(b: bv8, i: nat)
    requires 4 <= i < 8
    ensures (b >> i) as nat == b as nat / (if i == 4 then 16 else if i == 5 then 32 else if i == 6 then 64 else 128)
  {}

  lemma LowestBit(b: bv8)
    ensures b & 1 == 1 <==> b as nat % 2 == 1
  {}

  lemma ByteWeights()
    ensures Pow2(0) == 1 && Pow2(1) == 2 && Pow2(2) == 4 && Pow2(3) == 8
    ensures Pow2(4) == 16 && Pow2(5) == 32 && Pow2(6) == 64 && Pow2(7) == 128
  {}

  /** The number n with bit i replaced. */
  function WithBit(n: nat, i: nat, value: bool): int {
    n + (if value then Pow2(i) else 0) - (if BitValue(n, i) then Pow2(i) else 0)
  }

  /** The source's masks change the byte by the weight of the bit, or not at all. */
  lemma PutBitValue(b: bv8, i: nat, value: bool)
    requires i < 8
    ensures PutBit(b, i, value) as nat == WithBit(b as nat, i, value)
  {
    BitOfValue(b, i);
    MaskedByte(b, i);
    hide Pow2, BitValue, BitOf, PutBit;
  }

  lemma MaskedByte(b: bv8, i: nat)
    requires i < 8
    ensures PutBit(b, i, true) as nat == b as nat + (if BitOf(b, i) then 0 else Pow2(i))
    ensures PutBit(b, i, false) as nat == b as nat - (if BitOf(b, i) then Pow2(i) else 0)
  {
    WeightShift(i);
    OrByte(b, i);
    AndByte(b, i);
    hide Pow2, BitOf, PutBit;
  }

  lemma WeightShift(i: nat)
    requires i < 8
    ensures ((1 as bv8) << i) as nat == Pow2(i)
  {
    ByteWeights();
    hide Pow2;
  }

  lemma OrByte(b: bv8, i: nat)
    requires i < 8
    ensures PutBit(b, i, true) as nat == b as nat + (if BitOf(b, i) then 0 else ((1 as bv8) << i) as nat)
  {}

  lemma AndByte(b: bv8, i: nat)
    requires i < 8
    ensures PutBit(b, i, false) as nat == b as nat - (if BitOf(b, i) then ((1 as bv8) << i) as nat else 0)
  {}

  lemma FullByte(i: nat)
    requires i < 8
    ensures BitValue(0xFF, i)
  {
    ByteWeights();
  }

  lemma EmptyByte(i: nat)
    requires i < 8
    ensures !BitValue(0, i)
  {
    ByteWeights();
  }

  /** The bits of a byte array: byte 0 first, and in each byte the least significant first. */
  ghost function BitsOf(bytes: seq<bv8>): (bits: seq<bool>)
    ensures |bits| == 8 * |bytes|
  {
    seq(8 * |bytes|, k requires 0 <= k < 8 * |bytes| => BitValue(bytes[k / 8] as nat, k % 8))
  }

  /** Rewriting one byte with a one-bit mask rewrites one bit of the sequence. */
  lemma OneBitChanged(bytes: seq<bv8>, bitIdx: nat, value: bool)
    requires bitIdx < 8 * |bytes|
    ensures BitsOf(bytes[bitIdx / 8 := PutBit(bytes[bitIdx / 8], bitIdx % 8, value)])
            == SetRange(BitsOf(bytes), bitIdx, 1, value)
  {
    hide BitOf, PutBit, BitValue;
    var i, b := bitIdx % 8, bytes[bitIdx / 8];
    var after := bytes[bitIdx / 8 := PutBit(b, i, value)];
    forall k | 0 <= k < 8 * |bytes|
      ensures BitsOf(after)[k] == SetRange(BitsOf(bytes), bitIdx, 1, value)[k]
    {
      if k / 8 == bitIdx / 8 {
        PutBitChangesOneBit(b, i, k % 8, value);
        BitOfValue(b, k % 8);
        BitOfValue(PutBit(b, i, value), k % 8);
        assert i == k % 8 <==> k == bitIdx;
      }
    }
  }

  /** The bits [i, i + cnt) exist and are all clear. */
  ghost predicate FreeRun(bits: seq<bool>, i: nat, cnt: nat) {
    i + cnt <= |bits| && forall k :: i <= k < i + cnt ==> !bits[k]
  }

  ghost predicate HasRun(bits: seq<bool>, cnt: nat) {
    exists i: nat :: FreeRun(bits, i, cnt)
  }

  ghost predicate FirstRun(bits: seq<bool>, i: nat, cnt: nat) {
    FreeRun(bits, i, cnt) && forall j: nat :: j < i ==> !FreeRun(bits, j, cnt)
  }

  ghost function SetRange(bits: seq<bool>, i: nat, cnt: nat, value: bool): (r: seq<bool>)
    requires i + cnt <= |bits|
    ensures |r| == |bits|
  {
    seq(|bits|, k requires 0 <= k < |bits| => if i <= k < i + cnt then value else bits[k])
  }

  ghost function Ones(bits: seq<bool>): set<nat> {
    set k: nat | k < |bits| && bits[k]
  }

  ghost function Range(i: nat, cnt: nat): (r: set<nat>)
    ensures |r| == cnt
    ensures forall k :: k in r <==> i <= k < i + cnt
    decreases cnt
  {
    if cnt == 0 then {} else {i + cnt - 1} + Range(i, cnt - 1)
  }

  /** What bitmap_scan answers: the first free run, or -1 exactly when there is none. */
  ghost predicate IsScanResult(bits: seq<bool>, cnt: nat, r: int) {
    if cnt > 0 && HasRun(bits, cnt) then 0 <= r && FirstRun(bits, r, cnt) else r == -1
  }

  /** What bitmap_alloc answers: the first free run, or 0 when there is none. */
  ghost predicate IsAllocIndex(bits: seq<bool>, cnt: nat, r: nat) {
    if cnt > 0 && HasRun(bits, cnt) then FirstRun(bits, r, cnt) else r == 0
  }

  class Bitmap {
    const bytes: array<bv8>

    /** Bit indices and the scan result are 32-bit in the source. */
    ghost predicate Valid() {
      8 * bytes.Length < 0x8000_0000
    }

    ghost function Bits(): (bits: seq<bool>)
      reads bytes
      ensures |bits| == 8 * bytes.Length
    {
      BitsOf(bytes[..])
    }

    /** bitmap_init: take over the given bytes and clear them all. */
    constructor (buffer: array<bv8>)
      requires 8 * buffer.Length < 0x8000_0000
      modifies buffer
      ensures Valid() && bytes == buffer
      ensures |Bits()| == 8 * buffer.Length && forall k :: 0 <= k < |Bits()| ==> !Bits()[k]
    {
      bytes := buffer;
      new;
      for i := 0 to bytes.Length
        invariant forall k :: 0 <= k < i ==> bytes[k] == 0
      {
        bytes[i] := 0;
      }
      hide BitValue;
      forall k | 0 <= k < |Bits()| ensures !Bits()[k] {
        EmptyByte(k % 8);
      }
    }

    /** bitmap_set: one bit; the source does no bounds check of its own. */
    method Set(bitIdx: nat, value: bool)
      requires Valid() && bitIdx < 8 * bytes.Length
      modifies bytes
      ensures Bits() == SetRange(old(Bits()), bitIdx, 1, value)
      ensures bytes[bitIdx / 8] as nat == WithBit(old(bytes[bitIdx / 8]) as nat, bitIdx % 8, value)
      ensures forall j :: 0 <= j < bytes.Length && j != bitIdx / 8 ==> bytes[j] == old(bytes[j])
    {
      hide BitOf, PutBit, BitsOf, SetRange, WithBit;
      ghost var was := bytes[..];
      var byteIdx := bitIdx / 8;
      PutBitValue(bytes[byteIdx], bitIdx % 8, value);
      bytes[byteIdx] := PutBit(bytes[byteIdx], bitIdx % 8, value);
      assert bytes[..] == was[byteIdx := bytes[byteIdx]];
      OneBitChanged(was, bitIdx, value);
    }

    /** bitmap_con_set: a whole range, or nothing when the range does not fit. */
    method SetMany(bitIdx: nat, cnt: nat, value: bool)
      requires Valid() && bitIdx + cnt < 0x1_0000_0000
      modifies bytes
      ensures Bits() == if bitIdx + cnt <= |old(Bits())| then SetRange(old(Bits()), bitIdx, cnt, value)
                        else old(Bits())
    {
      if bitIdx + cnt > 8 * bytes.Length {
        return;
      }
      ghost var was := Bits();
      var i := 0;
      if !value {
        while i < cnt
          invariant 0 <= i <= cnt
          invariant Bits() == SetRange(was, bitIdx, i, value)
        {
          Set(bitIdx + i, false);
          i := i + 1;
        }
      } else {
        while i < cnt
          invariant 0 <= i <= cnt
          invariant Bits() == SetRange(was, bitIdx, i, value)
        {
          Set(bitIdx + i, true);
          i := i + 1;
        }
      }
    }

    /** bitmap_scan: the least index that starts `cnt` clear bits, or -1. */
    method Scan(cnt: nat) returns (r: int)
      requires Valid()
      ensures IsScanResult(Bits(), cnt, r)
    {
      if cnt == 0 {
        return -1;
      }
      hide BitOf, PutBit, BitsOf, NoRunYet, IsScanResult;
      var zeroCount, startBit := 0, 0;
      ScanStart(Bits(), cnt);
      for byteI := 0 to bytes.Length
        invariant NoRunYet(Bits(), 8 * byteI, zeroCount, startBit, cnt)
      {
        if bytes[byteI] == 0xFF {
          SkipFullByte(bytes[..], byteI, zeroCount, startBit, cnt);
          zeroCount := 0;
          continue;
        }
        var found;
        found, zeroCount, startBit := ScanByte(byteI, zeroCount, startBit, cnt);
        if found {
          return startBit;
        }
      }
      ScanEnd(Bits(), zeroCount, startBit, cnt);
      return -1;
    }

    /** The loop of bitmap_scan over the eight bits of one byte, which carries
        the current run in from the byte before and out to the next one. */
    method ScanByte(byteI: nat, zeroCount0: nat, startBit0: nat, cnt: nat)
      returns (found: bool, zeroCount: nat, startBit: nat)
      requires byteI < bytes.Length
      requires NoRunYet(Bits(), 8 * byteI, zeroCount0, startBit0, cnt)
      ensures if found then IsScanResult(Bits(), cnt, startBit)
              else NoRunYet(Bits(), 8 * byteI + 8, zeroCount, startBit, cnt)
    {
      hide BitOf, PutBit, BitsOf, NoRunYet, IsScanResult;
      zeroCount, startBit := zeroCount0, startBit0;
      for bit := 0 to 8
        invariant NoRunYet(Bits(), 8 * byteI + bit, zeroCount, startBit, cnt)
      {
        var bitIndex := byteI * 8 + bit;
        ByteBit(bytes[..], byteI, bit);
        ScanBit(Bits(), bitIndex, zeroCount, startBit, cnt);
        if !BitOf(bytes[byteI], bit) {
          if zeroCount == 0 {
            startBit := bitIndex;
          }
          zeroCount := zeroCount + 1;
          if zeroCount == cnt {
            return true, zeroCount, startBit;
          }
        } else {
          zeroCount := 0;
        }
      }
      found := false;
    }

    /** bitmap_alloc (kernel/memory/memory.c): first fit, marked as used.
        Failure also answers 0, because the source returns NULL. */
    method Alloc(cnt: nat) returns (r: nat)
      requires Valid()
      modifies bytes
      ensures IsAllocIndex(old(Bits()), cnt, r)
      ensures Bits() == if cnt > 0 && HasRun(old(Bits()), cnt) then SetRange(old(Bits()), r, cnt, true)
                        else old(Bits())
    {
      var index := Scan(cnt);
      if index == -1 {
        return 0;
      }
      SetMany(index, cnt, true);
      return index;
    }
  }

  /** Scan invariant after the first `p` bits: `z` clear bits end at `p` and start
      at `s`, and no run of `cnt` starts before them. */
  ghost predicate NoRunYet(bits: seq<bool>, p: nat, z: nat, s: nat, cnt: nat) {
    p <= |bits| && z <= p && z < cnt
    && (z > 0 ==> s == p - z)
    && (forall k :: p - z <= k < p ==> !bits[k])
    && (p > z ==> bits[p - z - 1])
    && forall j: nat :: j < p - z ==> !FreeRun(bits, j, cnt)
  }

  lemma ScanStart(bits: seq<bool>, cnt: nat)
    requires cnt > 0
    ensures NoRunYet(bits, 0, 0, 0, cnt)
  {}

  /** One bit of the scan: a run of `cnt` is complete, longer, or restarted. */
  lemma ScanBit(bits: seq<bool>, p: nat, z: nat, s: nat, cnt: nat)
    requires NoRunYet(bits, p, z, s, cnt) && p < |bits|
    ensures var s' := if z == 0 then p else s;
            if bits[p] then NoRunYet(bits, p + 1, 0, s, cnt)
            else if z + 1 == cnt then IsScanResult(bits, cnt, s')
            else NoRunYet(bits, p + 1, z + 1, s', cnt)
  {
    if !bits[p] && z + 1 == cnt {
      assert FreeRun(bits, if z == 0 then p else s, cnt);
    }
  }

  /** The full-byte shortcut loses no run: it only jumps over set bits. */
  lemma SkipFullByte(bytes: seq<bv8>, byteI: nat, z: nat, s: nat, cnt: nat)
    requires byteI < |bytes| && bytes[byteI] == 0xFF
    requires NoRunYet(BitsOf(bytes), 8 * byteI, z, s, cnt)
    ensures NoRunYet(BitsOf(bytes), 8 * byteI + 8, 0, s, cnt)
  {
    hide BitValue;
    var bits, p := BitsOf(bytes), 8 * byteI;
    FullByteBits(bytes, byteI);
    assert bits[p + 7];
    forall j: nat | p - z <= j < p + 8 ensures !FreeRun(bits, j, cnt) {
      assert bits[if j >= p then j else p];
    }
  }

  lemma ScanEnd(bits: seq<bool>, z: nat, s: nat, cnt: nat)
    requires NoRunYet(bits, |bits|, z, s, cnt)
    ensures IsScanResult(bits, cnt, -1)
  {}

  lemma ByteBit(bytes: seq<bv8>, byteI: nat, bit: nat)
    requires byteI < |bytes| && bit < 8
    ensures BitsOf(bytes)[byteI * 8 + bit] == BitOf(bytes[byteI], bit)
  {
    BitOfValue(bytes[byteI], bit);
    hide BitOf, BitValue;
  }

  lemma FullByteBits(bytes: seq<bv8>, byteI: nat)
    requires byteI < |bytes| && bytes[byteI] == 0xFF
    ensures forall i :: 8 * byteI <= i < 8 * byteI + 8 ==> BitsOf(bytes)[i]
  {
    hide BitValue;
    forall i | 8 * byteI <= i < 8 * byteI + 8 ensures BitsOf(bytes)[i] {
      FullByte(i % 8);
    }
  }

  // ---- properties of the bit-sequence operations ----

  /** Allocating a free run and clearing it again restores every bit. */
  lemma ClearUndoesSet(bits: seq<bool>, i: nat, cnt: nat)
    requires FreeRun(bits, i, cnt)
    ensures SetRange(SetRange(bits, i, cnt, true), i, cnt, false) == bits
  {}

  /** Allocation sets exactly the chosen bits and adds exactly `cnt` of them. */
  lemma SetRangeOnes(bits: seq<bool>, i: nat, cnt: nat)
    requires FreeRun(bits, i, cnt)
    ensures Ones(SetRange(bits, i, cnt, true)) == Ones(bits) + Range(i, cnt)
    ensures Ones(bits) !! Range(i, cnt)
    ensures |Ones(SetRange(bits, i, cnt, true))| == |Ones(bits)| + cnt
  {
    assert Ones(SetRange(bits, i, cnt, true)) == Ones(bits) + Range(i, cnt);
  }

  lemma SetOneOnes(bits: seq<bool>, i: nat)
    requires FreeRun(bits, i, 1)
    ensures Ones(SetRange(bits, i, 1, true)) == Ones(bits) + {i} && i !in Ones(bits)
  {}

  lemma ClearRangeOnes(bits: seq<bool>, i: nat, cnt: nat)
    requires i + cnt <= |bits|
    ensures Ones(SetRange(bits, i, cnt, false)) == Ones(bits) - Range(i, cnt)
  {}

  lemma OnesBound(bits: seq<bool>)
    ensures |Ones(bits)| <= |bits|
    ensures |Ones(bits)| < |bits| <==> HasRun(bits, 1)
  {
    var all := Range(0, |bits|);
    SubsetSize(Ones(bits), all);
    if |Ones(bits)| < |bits| {
      var k :| k in all && k !in Ones(bits);
      assert FreeRun(bits, k, 1);
    }
    if HasRun(bits, 1) {
      var k: nat :| FreeRun(bits, k, 1);
      SubsetSize(Ones(bits), all - {k});
    }
  }

  lemma {:induction false} SubsetSize(a: set<nat>, b: set<nat>)
    requires a <= b
    ensures |a| <= |b|
    ensures |a| < |b| ==> exists k :: k in b && k !in a
    ensures |a| == |b| ==> a == b
  {
    if a != {} {
      var x :| x in a;
      SubsetSize(a - {x}, b - {x});
      if |a| < |b| {
        var k :| k in b - {x} && k !in a - {x};
        assert k in b && k !in a;
      }
      assert |a| == |b| ==> a - {x} == b - {x};
    } else if b != {} {
      var k :| k in b;
    }
  }

  /** bitmap_alloc's answer names free bits exactly when a run of that length
      exists: on an exhausted bitmap the answer 0 is a set bit or runs off the end. */
  lemma AllocAnswersFreeBits(bits: seq<bool>, cnt: nat, r: nat)
    requires cnt > 0 && IsAllocIndex(bits, cnt, r)
    ensures FreeRun(bits, r, cnt) <==> HasRun(bits, cnt)
  {}

  /** The answer alone does not tell: a full bitmap and an empty one both answer 0. */
  lemma FullAndEmptyAlike(full: seq<bool>, empty: seq<bool>)
    requires |full| == |empty| > 0 && forall k :: 0 <= k < |full| ==> full[k] && !empty[k]
    ensures IsAllocIndex(full, 1, 0) && IsAllocIndex(empty, 1, 0)
    ensures !FreeRun(full, 0, 1) && FreeRun(empty, 0, 1)
  {
    forall j: nat ensures !FreeRun(full, j, 1) {
      assert j < |full| ==> full[j];
    }
    assert FirstRun(empty, 0, 1);
    hide FreeRun;
  }
}
