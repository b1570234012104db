/** The slot list of a gossip message as a bitmap of 16384 bits. */
module SlotBitmap {
  import opened Slots

  const BITMAP_BYTES := 2048

  type Byte = bv8

  function Mask(k: nat): Byte
    requires k < 8
  {
    (1 as Byte) << k
  }

  predicate Bit(bitmap: seq<Byte>, i: nat)
    requires i < 8 * |bitmap|
  {
    bitmap[i / 8] & Mask(i % 8) != 0
  }

  function SetBit(bitmap: seq<Byte>, i: nat): (r: seq<Byte>)
    requires i < 8 * |bitmap|
    ensures |r| == |bitmap|
  {
    bitmap[i / 8 := bitmap[i / 8] | Mask(i % 8)]
  }

  predicate Below(slots: seq<nat>, n: nat) {
    forall i | 0 <= i < |slots| :: slots[i] < n
  }

  function SetAll(bitmap: seq<Byte>, slots: seq<nat>): (r: seq<Byte>)
    requires Below(slots, 8 * |bitmap|)
    ensures |r| == |bitmap|
    decreases |slots|
  {
    if slots == [] then bitmap else SetAll(SetBit(bitmap, slots[0]), slots[1..])
  }

  /** SlotsToBytes. */
  function Encode(slots: seq<nat>): (r: seq<Byte>)
    requires Below(slots, SLOT_COUNT)
    ensures |r| == BITMAP_BYTES
  {
    SetAll(seq(BITMAP_BYTES, _ => 0), slots)
  }

  /** How many bits BytesToSlots looks at. */
  function Scanned(bitmap: seq<Byte>): nat {
    if 8 * |bitmap| < SLOT_COUNT then 8 * |bitmap| else SLOT_COUNT
  }

  /** The set bits below n, in ascending order. */
  function DecodeBelow(bitmap: seq<Byte>, n: nat): (slots: seq<nat>)
    requires n <= 8 * |bitmap|
    ensures Below(slots, n)
  {
    if n == 0 then []
    else DecodeBelow(bitmap, n - 1) + if Bit(bitmap, n - 1) then [n - 1] else []
  }

  /** BytesToSlots. */
  function Decode(bitmap: seq<Byte>): (slots: seq<nat>)
    ensures Below(slots, SLOT_COUNT)
  {
    DecodeBelow(bitmap, Scanned(bitmap))
  }

  method SlotsToBytes(slots: seq<nat>) returns (bitmap: array<Byte>)
    requires Below(slots, SLOT_COUNT)
    ensures fresh(bitmap) && bitmap[..] == Encode(slots)
  {
    bitmap := new Byte[BITMAP_BYTES](_ => 0);
    assert bitmap[..] == seq(BITMAP_BYTES, _ => 0 as Byte);
    for i := 0 to |slots|
      invariant SetAll(bitmap[..], slots[i..]) == Encode(slots)
    {
      var slot := slots[i];
      assert slots[i..][0] == slot && slots[i..][1..] == slots[i + 1..];
      ghost var before := bitmap[..];
      bitmap[slot / 8] := bitmap[slot / 8] | Mask(slot % 8);
      assert bitmap[..] == SetBit(before, slot);
    }
  }

  method BytesToSlots(bitmap: seq<Byte>) returns (slots: seq<nat>)
    ensures slots == Decode(bitmap)
  {
    slots := [];
    var i := 0;
    while i < 8 * |bitmap| && i < SLOT_COUNT
      invariant i <= Scanned(bitmap) && slots == DecodeBelow(bitmap, i)
    {
      if bitmap[i / 8] & Mask(i % 8) != 0 {
        slots := slots + [i];
      }
      i := i + 1;
    }
  }

  predicate Ascending(l: seq<nat>) {
    forall i, j | 0 <= i < j < |l| :: l[i] < l[j]
  }

  lemma MaskCases(k: nat)
    requires k < 8
    ensures Mask(k) == if k == 0 then 1 else if k == 1 then 2 else if k == 2 then 4 else if k == 3 then 8
                       else if k == 4 then 16 else if k == 5 then 32 else if k == 6 then 64 else 128
  {
  }

  /** Setting a bit of a byte changes that bit only. */
  lemma OrMask(b: Byte, j: nat, k: nat)
    requires j < 8 && k < 8
    ensures ((b | Mask(j)) & Mask(k) != 0) <==> (b & Mask(k) != 0) || j == k
  {
    hide Mask;
    MaskCases(j);
    MaskCases(k);
  }

  lemma SetBitExact(bitmap: seq<Byte>, i: nat, j: nat)
    requires i < 8 * |bitmap| && j < 8 * |bitmap|
    ensures Bit(SetBit(bitmap, i), j) <==> Bit(bitmap, j) || i == j
  {
    hide Mask;
    var r := SetBit(bitmap, i);
    if i / 8 == j / 8 {
      OrMask(bitmap[i / 8], i % 8, j % 8);
      assert r[j / 8] == bitmap[i / 8] | Mask(i % 8);
      assert i == j <==> i % 8 == j % 8;
    } else {
      assert r[j / 8] == bitmap[j / 8];
    }
  }

  lemma {:induction false} SetAllExact(bitmap: seq<Byte>, slots: seq<nat>, j: nat)
    requires Below(slots, 8 * |bitmap|) && j < 8 * |bitmap|
    ensures Bit(SetAll(bitmap, slots), j) <==> Bit(bitmap, j) || j in slots
    decreases |slots|
  {
    hide Bit, SetBit;
    if slots != [] {
      SetBitExact(bitmap, slots[0], j);
      SetAllExact(SetBit(bitmap, slots[0]), slots[1..], j);
    }
  }

  /** The bitmap of a slot list has exactly the listed bits. */
  lemma EncodeExact(slots: seq<nat>, j: nat)
    requires Below(slots, SLOT_COUNT) && j < SLOT_COUNT
    ensures Bit(Encode(slots), j) <==> j in slots
  {
    SetAllExact(seq(BITMAP_BYTES, _ => 0), slots, j);
  }

  lemma {:induction false} DecodeBelowExact(bitmap: seq<Byte>, n: nat)
    requires n <= 8 * |bitmap|
    ensures Ascending(DecodeBelow(bitmap, n))
    ensures forall i :: i in DecodeBelow(bitmap, n) <==> 0 <= i < n && Bit(bitmap, i)
  {
    hide Bit;
    if n > 0 {
      DecodeBelowExact(bitmap, n - 1);
    }
  }

  /** Decoding lists the set bits, in ascending order without duplicates. */
  lemma DecodeExact(bitmap: seq<Byte>)
    ensures Ascending(Decode(bitmap))
    ensures forall i :: i in Decode(bitmap) <==> 0 <= i < Scanned(bitmap) && Bit(bitmap, i)
  {
    DecodeBelowExact(bitmap, Scanned(bitmap));
  }

  /** Decoding the bitmap of a list gives its slots, sorted and without duplicates. */
  lemma DecodeEncode(slots: seq<nat>)
    requires Below(slots, SLOT_COUNT)
    ensures Ascending(Decode(Encode(slots)))
    ensures forall s: nat :: s in Decode(Encode(slots)) <==> s in slots
  {
    hide Bit, Encode;
    DecodeExact(Encode(slots));
    forall s: nat
      ensures s in Decode(Encode(slots)) <==> s in slots
    {
      if s < SLOT_COUNT {
        EncodeExact(slots, s);
      }
    }
  }

  lemma ByteFromBits(a: Byte, b: Byte)
    requires (a & 1 != 0) == (b & 1 != 0) && (a & 2 != 0) == (b & 2 != 0) && (a & 4 != 0) == (b & 4 != 0)
    requires (a & 8 != 0) == (b & 8 != 0) && (a & 16 != 0) == (b & 16 != 0) && (a & 32 != 0) == (b & 32 != 0)
    requires (a & 64 != 0) == (b & 64 != 0) && (a & 128 != 0) == (b & 128 != 0)
    ensures a == b
  {
  }

  lemma SameByte(a: seq<Byte>, b: seq<Byte>, k: nat)
    requires k < |a| == |b| && forall i | 8 * k <= i < 8 * k + 8 :: Bit(a, i) == Bit(b, i)
    ensures a[k] == b[k]
  {
    MaskCases(0); MaskCases(1); MaskCases(2); MaskCases(3); MaskCases(4); MaskCases(5); MaskCases(6); MaskCases(7);
    assert Bit(a, 8 * k + 0) == Bit(b, 8 * k + 0) && Bit(a, 8 * k + 1) == Bit(b, 8 * k + 1);
    assert Bit(a, 8 * k + 2) == Bit(b, 8 * k + 2) && Bit(a, 8 * k + 3) == Bit(b, 8 * k + 3);
    assert Bit(a, 8 * k + 4) == Bit(b, 8 * k + 4) && Bit(a, 8 * k + 5) == Bit(b, 8 * k + 5);
    assert Bit(a, 8 * k + 6) == Bit(b, 8 * k + 6) && Bit(a, 8 * k + 7) == Bit(b, 8 * k + 7);
    ByteFromBits(a[k], b[k]);
  }

  lemma SameBits(a: seq<Byte>, b: seq<Byte>)
    requires |a| == |b| && forall i | 0 <= i < 8 * |a| :: Bit(a, i) == Bit(b, i)
    ensures a == b
  {
    hide Bit;
    forall k | 0 <= k < |a|
      ensures a[k] == b[k]
    {
      SameByte(a, b, k);
    }
  }

  /** Encoding the decoded slots gives a full-size bitmap back. */
  lemma EncodeDecode(bitmap: seq<Byte>)
    requires |bitmap| == BITMAP_BYTES
    ensures Encode(Decode(bitmap)) == bitmap
  {
    hide Bit, Encode, Decode;
    DecodeExact(bitmap);
    forall i | 0 <= i < SLOT_COUNT
      ensures Bit(Encode(Decode(bitmap)), i) == Bit(bitmap, i)
    {
      EncodeExact(Decode(bitmap), i);
    }
    SameBits(Encode(Decode(bitmap)), bitmap);
  }
}
