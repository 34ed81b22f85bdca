/**
 * Pointer tagging (tagged_ptr.h): small tags are stored in the low bits that an aligned
 * pointer always has clear, and are read back or removed by masking.
 *
 * A pointer is its address bits, held in a bv64 whose bits above the pointer width are zero.
 * The C code converts a pointer to `unsigned long long` and back; on a target with 32-bit
 * pointers that conversion may sign-extend, which is why every result is masked with
 * PTR_VALUE_MASK. `unsigned` (tags, alignments, error numbers) is bv32.
 */
module TaggedPtr {

  /** 8 * sizeof(void*). */
  type PointerBits = w: nat | w == 32 || w == 64 witness 64

  /** How the compiler converts a pointer to `unsigned long long`. */
  datatype Widening = ZeroExtend | SignExtend

  /** The properties of the target that the arithmetic depends on. */
  datatype Target = Target(bits: PointerBits, widening: Widening)

  /**
   * PTR_VALUE_MASK: `(1 << (bits - 1)) | ~(~0 << (bits - 1))` in `unsigned long long`,
   * written once per pointer width so that the shift amounts are constants.
   */
  function ValueMask(bits: PointerBits): (m: bv64)
    ensures bits == 64 ==> m == 0xFFFF_FFFF_FFFF_FFFF
    ensures bits == 32 ==> m == 0x0000_0000_FFFF_FFFF
  {
    if bits == 64 then (1 << 63) | !(!0 << 63) else (1 << 31) | !(!0 << 31)
  }

  /** p is a pointer value of the target: it has no bits above the pointer width. */
  predicate Fits(p: bv64, bits: PointerBits)
  {
    p & !ValueMask(bits) == 0
  }

  /** align is a power of two, as every C alignment is. */
  predicate IsPow2(align: bv32)
  {
    align != 0 && align & (align - 1) == 0
  }

  /** The unsigned number the bits of p stand for, lowest bit last. */
  function Value(p: bv64): (n: nat)
    ensures n == 0 <==> p == 0
    decreases p
  {
    if p == 0 then 0 else 2 * Value(p >> 1) + Low(p)
  }

  /** The lowest bit of p, as a number. */
  function Low(p: bv64): nat
  {
    if p & 1 == 1 then 1 else 0
  }

  /** The address p is a multiple of align (a non-zero alignment), as numbers. */
  predicate IsAligned(p: bv64, align: bv32)
  {
    align != 0 && Value(p) % Value(align as bv64) == 0
  }

  /** r is the remainder of p divided by align (non-zero), as numbers. */
  predicate IsRemainder(r: bv32, p: bv64, align: bv32)
    requires align != 0
  {
    Value(r as bv64) == Value(p) % Value(align as bv64)
  }

  /** `(unsigned long long)ptr`: zero- or sign-extension of the pointer's bits. */
  function Widen(p: bv64, t: Target): (u: bv64)
    requires Fits(p, t.bits)
    ensures u & ValueMask(t.bits) == p
  {
    if t.widening == SignExtend && t.bits == 32 && p & 0x8000_0000 != 0
    then p | 0xFFFF_FFFF_0000_0000
    else p
  }

  /** ptr_add_tag_: OR the tag into the pointer, then mask to pointer width. */
  function AddTag(p: bv64, tag: bv32, t: Target): (r: bv64)
    requires Fits(p, t.bits)
    ensures r == p | tag as bv64
  {
    ValueMask(t.bits) & (Widen(p, t) | tag as bv64)
  }

  /** ptr_clear_tags_: clear the bits below the alignment, then mask to pointer width. */
  function ClearTags(p: bv64, align: bv32, t: Target): (r: bv64)
    requires Fits(p, t.bits) && align > 0
    ensures r == p & !((align as bv64) - 1)
  {
    ValueMask(t.bits) & (Widen(p, t) & !((align as bv64) - 1))
  }

  /** ptr_get_tags_: the bits of the pointer below the alignment, as an `unsigned`. */
  function GetTags(p: bv64, align: bv32, t: Target): (r: bv32)
    requires Fits(p, t.bits) && align > 0
    ensures r as bv64 == p & ((align as bv64) - 1)
  {
    (Widen(p, t) & ((align as bv64) - 1)) as bv32
  }

  /** ptr_make_tagged_: `(void*)(value + tag)`, the sum wrapping at 2^32 and then zero-extended. */
  function MakeTagged(value: bv32, tag: bv32, t: Target): (r: bv64)
    ensures Fits(r, t.bits)
    ensures value & tag == 0 ==> r == (value | tag) as bv64
  {
    DisjointSum(value, tag);
    (value + tag) as bv64
  }

  /** A tagged pointer is still a pointer of the target. */
  lemma AddTagFits(p: bv64, tag: bv32, t: Target)
    requires Fits(p, t.bits)
    ensures Fits(AddTag(p, tag, t), t.bits)
  {
  }

  /**
   * Clearing the tags gives a pointer of the target; for a power-of-two alignment it is a
   * multiple of the alignment.
   */
  lemma ClearTagsAligned(p: bv64, align: bv32, t: Target)
    requires Fits(p, t.bits) && align > 0
    ensures Fits(ClearTags(p, align, t), t.bits)
    ensures IsPow2(align) ==> IsAligned(ClearTags(p, align, t), align)
  {
    if IsPow2(align) {
      AlignedIsMask(ClearTags(p, align, t), align);
    }
  }

  /** On an aligned pointer, the tag added is the tag read back, and clearing it restores the pointer. */
  lemma TagRoundTrip(p: bv64, tag: bv32, align: bv32, t: Target)
    requires Fits(p, t.bits) && IsPow2(align) && 0 < tag < align && IsAligned(p, align)
    ensures GetTags(AddTag(p, tag, t), align, t) == tag
    ensures ClearTags(AddTag(p, tag, t), align, t) == p
  {
    AlignedIsMask(p, align);
    MaskedTagRoundTrip(p, tag, align, t);
  }

  /** TagRoundTrip, with alignment stated on the bits. */
  lemma MaskedTagRoundTrip(p: bv64, tag: bv32, align: bv32, t: Target)
    requires Fits(p, t.bits) && IsPow2(align) && 0 < tag < align && p & ((align as bv64) - 1) == 0
    ensures GetTags(AddTag(p, tag, t), align, t) == tag
    ensures ClearTags(AddTag(p, tag, t), align, t) == p
  {
  }

  /** The tags read are below the alignment (align > 0, so `<= align - 1` is `< align`). */
  lemma GetTagsBound(p: bv64, align: bv32, t: Target)
    requires Fits(p, t.bits) && align > 0
    ensures GetTags(p, align, t) <= align - 1
  {
  }

  /** A pointer whose tags were cleared carries no tags. */
  lemma ClearedHasNoTags(p: bv64, align: bv32, t: Target)
    requires Fits(p, t.bits) && align > 0
    ensures Fits(ClearTags(p, align, t), t.bits)
    ensures GetTags(ClearTags(p, align, t), align, t) == 0
  {
    ClearTagsAligned(p, align, t);
  }

  /** Clearing tags twice is clearing them once. */
  lemma ClearIdempotent(p: bv64, align: bv32, t: Target)
    requires Fits(p, t.bits) && align > 0
    ensures Fits(ClearTags(p, align, t), t.bits)
    ensures ClearTags(ClearTags(p, align, t), align, t) == ClearTags(p, align, t)
  {
    ClearTagsAligned(p, align, t);
  }

  /** The cleared pointer and the tags together make up the original pointer. */
  lemma ClearAndTagsRebuild(p: bv64, align: bv32, t: Target)
    requires Fits(p, t.bits) && align > 0
    ensures ClearTags(p, align, t) | GetTags(p, align, t) as bv64 == p
  {
  }

  /** For a power-of-two alignment, the tags are the remainder of the address divided by it. */
  lemma TagsAreRemainder(p: bv64, align: bv32, t: Target)
    requires Fits(p, t.bits) && IsPow2(align)
    ensures Value(GetTags(p, align, t) as bv64) == Value(p) % Value(align as bv64)
  {
    ModIsMask(p, align);
  }

  /** For a power-of-two alignment, a pointer carries no tags exactly when it is a multiple of it. */
  lemma NoTagsIffAligned(p: bv64, align: bv32, t: Target)
    requires Fits(p, t.bits) && IsPow2(align)
    ensures GetTags(p, align, t) == 0 <==> IsAligned(p, align)
  {
    AlignedIsMask(p, align);
  }

  /** What the tags read mean: a number below align, and for a power of two the remainder. */
  lemma GetTagsMeaning(p: bv64, align: bv32, t: Target)
    requires Fits(p, t.bits) && align > 0
    ensures GetTags(p, align, t) <= align - 1
    ensures IsPow2(align) ==> IsRemainder(GetTags(p, align, t), p, align)
    ensures IsPow2(align) ==> (GetTags(p, align, t) == 0 <==> IsAligned(p, align))
  {
    GetTagsBound(p, align, t);
    if IsPow2(align) {
      TagsAreRemainder(p, align, t);
      NoTagsIffAligned(p, align, t);
    }
  }

  /** A pointer made from a multiple of align and a tag below align reads back as the tag. */
  lemma MakeTaggedTags(v: bv32, tag: bv32, align: bv32, t: Target)
    requires IsPow2(align) && 0 < tag < align && v & (align - 1) == 0
    ensures GetTags(MakeTagged(v, tag, t), align, t) == tag
  {
    assert v & tag == 0;
    SplitDisjoint(v, tag, align);
  }

  /** A pointer made from a multiple of align and a tag below align, with the tag cleared, is the multiple. */
  lemma MakeTaggedValue(v: bv32, tag: bv32, align: bv32, t: Target)
    requires IsPow2(align) && 0 < tag < align && v & (align - 1) == 0
    ensures ClearTags(MakeTagged(v, tag, t), align, t) == v as bv64
  {
    assert v & tag == 0;
    SplitDisjoint(v, tag, align);
  }

  /** PTR_ADD_TAG: the macro checks at compile time that 0 < tag < alignment of the pointee. */
  function PtrAddTag(p: bv64, tag: bv32, align: bv32, t: Target): (r: bv64)
    requires Fits(p, t.bits) && IsPow2(align) && 0 < tag < align
    ensures Fits(r, t.bits)
    ensures IsAligned(p, align) ==> GetTags(r, align, t) == tag && ClearTags(r, align, t) == p
  {
    AddTagFits(p, tag, t);
    if IsAligned(p, align) then TagRoundTrip(p, tag, align, t); AddTag(p, tag, t)
    else AddTag(p, tag, t)
  }

  /**
   * PTR_CLEAR_TAGS: the macro checks at compile time that the alignment is non-zero; the
   * alignment it passes, that of the pointed-to type, is a power of two.
   */
  function PtrClearTags(p: bv64, align: bv32, t: Target): (r: bv64)
    requires Fits(p, t.bits) && align > 0
    ensures Fits(r, t.bits) && GetTags(r, align, t) == 0
    ensures IsPow2(align) ==> IsAligned(r, align)
    ensures r | GetTags(p, align, t) as bv64 == p
  {
    ClearTagsAligned(p, align, t);
    ClearedHasNoTags(p, align, t);
    ClearAndTagsRebuild(p, align, t);
    ClearTags(p, align, t)
  }

  /**
   * PTR_GET_TAGS: the macro checks at compile time that the alignment is non-zero; the
   * alignment it passes, that of the pointed-to type, is a power of two.
   */
  function PtrGetTags(p: bv64, align: bv32, t: Target): (r: bv32)
    requires Fits(p, t.bits) && align > 0
    ensures r <= align - 1
    ensures IsPow2(align) ==> IsRemainder(r, p, align)
    ensures IsPow2(align) ==> (r == 0 <==> IsAligned(p, align))
  {
    GetTagsMeaning(p, align, t);
    GetTags(p, align, t)
  }

  /**
   * PTR_MAKE_TAGGED: an (invalid) pointer that carries an error number `value` and a tag.
   * The macro checks at compile time that 0 < tag < alignment and value <= UINT_MAX / alignment.
   */
  function PtrMakeTagged(value: bv32, tag: bv32, align: bv32, t: Target): (r: bv64)
    requires IsPow2(align) && 0 < tag < align && value <= 0xFFFF_FFFF / align
    ensures Fits(r, t.bits)
    ensures GetTags(r, align, t) == tag
    ensures ClearTags(r, align, t) == (value * align) as bv64
  {
    ScaledIsAligned(value, tag, align);
    MakeTaggedTags(value * align, tag, align, t);
    MakeTaggedValue(value * align, tag, align, t);
    MakeTagged(value * align, tag, t)
  }

  // Bit-level facts used above, stated over plain words.

  /** Adding words with no common bits cannot carry. */
  lemma DisjointSum(value: bv32, tag: bv32)
    ensures value & tag == 0 ==> value + tag == value | tag
  {
  }

  /** A multiple of align with a tag below align ORed in splits back into the two by masking. */
  lemma SplitDisjoint(v: bv32, tag: bv32, align: bv32)
    requires IsPow2(align) && v & (align - 1) == 0 && tag <= align - 1
    ensures ((v | tag) as bv64) & ((align as bv64) - 1) == tag as bv64
    ensures ((v | tag) as bv64) & !((align as bv64) - 1) == v as bv64
  {
  }

  /** The base-2 logarithm of a power of two. */
  function Log2(align: bv32): (k: bv32)
    requires IsPow2(align)
    ensures k < 32 && align == 1 << k
    decreases align
  {
    if align == 1 then 0 else Log2(align >> 1) + 1
  }

  /** Multiplying by 2^k is shifting left by k. */
  lemma MulIsShift(value: bv32, k: bv32)
    requires k < 32
    ensures value * (1 << k) == value << k
  {
  }

  /** value * align is aligned and shares no bit with a tag below align. */
  lemma ScaledIsAligned(value: bv32, tag: bv32, align: bv32)
    requires IsPow2(align) && tag < align
    ensures (value * align) & (align - 1) == 0 && (value * align) & tag == 0
  {
    var k := Log2(align);
    MulIsShift(value, k);
    assert (value << k) & ((1 << k) - 1) == 0;
  }

  // Alignment as arithmetic: for a power-of-two alignment, the remainder is the low bits.

  /** A product of a positive factor and a positive d is at least d. */
  lemma MulAtLeast(a: int, d: int)
    requires a >= 1 && d > 0
    ensures a * d >= d
  {
  }

  /** The remainder is the only r in [0, d) with x == q * d + r. */
  lemma ModUnique(x: int, d: int, q: int, r: int)
    requires d > 0 && 0 <= r < d && x == q * d + r
    ensures x % d == r
  {
    var q', r' := x / d, x % d;
    assert x == q' * d + r' && 0 <= r' < d;
    assert (q - q') * d == r' - r;
    if q > q' {
      MulAtLeast(q - q', d);
    } else if q < q' {
      MulAtLeast(q' - q, d);
    }
  }

  /** Halving numerator and remainder: vx is the remainder of vp by 2 * m when vx / 2 is that of vp / 2 by m. */
  lemma ModStep(vp: int, vp1: int, vx: int, vx1: int, va: int, m: int, b: int)
    requires m > 0 && vp1 >= 0 && (b == 0 || b == 1)
    requires vp == 2 * vp1 + b && vx == 2 * vx1 + b && vx1 == vp1 % m && va == 2 * m
    ensures vx == vp % va
  {
    var q, r := vp1 / m, vp1 % m;
    assert vp == q * (2 * m) + (2 * r + b);
    ModUnique(vp, 2 * m, q, 2 * r + b);
  }

  /** The bit-level facts of one halving step. */
  lemma MaskStep(p: bv64, align: bv32)
    requires IsPow2(align) && align != 1
    ensures IsPow2(align >> 1)
    ensures (align as bv64) >> 1 == (align >> 1) as bv64 && (align as bv64) & 1 == 0
    ensures (p & ((align as bv64) - 1)) >> 1 == (p >> 1) & (((align >> 1) as bv64) - 1)
    ensures (p & ((align as bv64) - 1)) & 1 == p & 1
  {
  }

  /** One halving step, stated over the numbers only. */
  lemma HalfMask(p: bv64, align: bv32)
    requires IsPow2(align) && align != 1
    ensures IsPow2(align >> 1) && Value((align >> 1) as bv64) > 0
    ensures Value(p) == 2 * Value(p >> 1) + Low(p)
    ensures Value(p & ((align as bv64) - 1)) == 2 * Value((p >> 1) & (((align >> 1) as bv64) - 1)) + Low(p)
    ensures Value(align as bv64) == 2 * Value((align >> 1) as bv64)
  {
    MaskStep(p, align);
  }

  /** For a power-of-two align, the bits of p below align are the remainder of p divided by align. */
  lemma ModIsMask(p: bv64, align: bv32)
    requires IsPow2(align)
    ensures Value(p & ((align as bv64) - 1)) == Value(p) % Value(align as bv64)
    decreases align
  {
    if align == 1 {
      assert Value(1) == 1;
    } else {
      HalfMask(p, align);
      ModIsMask(p >> 1, align >> 1);
      ModStep(Value(p), Value(p >> 1), Value(p & ((align as bv64) - 1)),
              Value((p >> 1) & (((align >> 1) as bv64) - 1)), Value(align as bv64),
              Value((align >> 1) as bv64), Low(p));
    }
  }

  /** For a power-of-two align, p is a multiple of align exactly when its bits below align are clear. */
  lemma AlignedIsMask(p: bv64, align: bv32)
    requires IsPow2(align)
    ensures IsAligned(p, align) <==> p & ((align as bv64) - 1) == 0
  {
    ModIsMask(p, align);
  }
}
