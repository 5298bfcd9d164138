/**
  The word `raw` of a `meta_ptr<T>` and what each operation of the class
  computes from it, as pure functions of one machine word.

  `raw` packs an address aligned to `alignof(T)` in its high bits and the
  caller's metadata (the tag) in the low `meta_bits` bits that the alignment
  forces to zero.  Machine words are `bv64`, so every mask, shift and the
  wrap-around of address arithmetic is that of a 64-bit `std::uintptr_t`.
  The functions take the alignment `a` as a parameter; `a` is a power of
  two wherever a law depends on it.

  Each bit-level step (`Masked`, `WithBits`, `WithoutBits`, `Toggled`,
  `Scaled`, `Sum`, `Difference`) is a named function.  The laws of these
  steps name every intermediate word as a parameter (`x == WithBits(w, b)`
  in the `requires`), so that each law speaks about one step applied to
  plain words; the laws of the operations then follow from them by
  substitution alone.
 */
module RawWord {

  /** `std::uintptr_t` and `std::size_t`: one 64-bit unsigned machine word. */
  type Word = bv64

  /** `std::ptrdiff_t`: a signed 64-bit offset. */
  type PtrDiff = x: int | -0x8000_0000_0000_0000 <= x < 0x8000_0000_0000_0000

  predicate IsPow2(x: Word) {
    x != 0 && x & (x - 1) == 0
  }

  /** `(std::uintptr_t)1 << pos`. */
  function Bit(pos: Word): Word
    requires pos < 64
  {
    (1 as Word) << pos
  }

  // -- bit-level steps --

  /** `w & m` */
  function Masked(w: Word, m: Word): Word {
    w & m
  }

  /** `w | b` */
  function WithBits(w: Word, b: Word): Word {
    w | b
  }

  /** `w & ~b` */
  function WithoutBits(w: Word, b: Word): Word {
    w & !b
  }

  /** `w ^ b` */
  function Toggled(w: Word, b: Word): Word {
    w ^ b
  }

  /** `t * s`, modulo 2^64. */
  function Scaled(t: Word, s: Word): Word {
    t * s
  }

  /** `p + d`, modulo 2^64. */
  function Sum(p: Word, d: Word): Word {
    p + d
  }

  /** `p - d`, modulo 2^64. */
  function Difference(p: Word, d: Word): Word {
    p - d
  }

  // -- ctime_log2 and meta_bits --

  /** `ctime_log2`: the base-2 logarithm, computed by halving.  For a word
      that is not a power of two it gives the floor of the logarithm, the
      index of the highest set bit: `2^r <= v < 2^(r+1)`. */
  function CtimeLog2(v: Word): (r: Word)
    ensures r < 64
    ensures v <= 1 ==> r == 0
    ensures v != 0 ==> Bit(r) <= v && v >> 1 < Bit(r)
    decreases v
  {
    if v <= 1 then 0
    else
      var k := CtimeLog2(v >> 1);
      assert k < 63 by {
        assert Bit(k) <= v >> 1 < 0x8000_0000_0000_0000;
      }
      assert Bit(1 + k) == Bit(k) << 1;
      1 + k
  }

  lemma DoubleBitLaw(k: Word)
    requires k < 63
    ensures Bit(k + 1) == Bit(k) << 1 && Bit(k + 1) >> 1 == Bit(k)
  {
  }

  lemma HalfPow2Law(v: Word)
    requires IsPow2(v) && v > 1
    ensures IsPow2(v >> 1) && (v >> 1) << 1 == v
  {
  }

  /** `ctime_log2(2^k) == k` for every power of two a word can hold. */
  lemma {:induction false} CtimeLog2OfPow2(k: Word)
    requires k < 64
    ensures CtimeLog2(Bit(k)) == k
  {
    if k > 0 {
      DoubleBitLaw(k - 1);
      CtimeLog2OfPow2(k - 1);
      assert Bit(k) > 1;
    }
  }

  /** The law `align_check` tests: `1 << ctime_log2(v) == v` for every power
      of two `v`. */
  lemma {:induction false} Pow2OfCtimeLog2(v: Word)
    requires IsPow2(v)
    ensures Bit(CtimeLog2(v)) == v
    decreases v
  {
    if v > 1 {
      HalfPow2Law(v);
      Pow2OfCtimeLog2(v >> 1);
      var k := CtimeLog2(v >> 1);
      assert k < 63;
      DoubleBitLaw(k);
    }
  }

  // -- the platform --

  /** The bit pattern of a `std::ptrdiff_t` on a two's-complement machine:
      the offset modulo 2^64. */
  function TwosComplement(off: PtrDiff): Word {
    if off >= 0 then off as Word else 0 - ((-(off as int)) as Word)
  }

  /** What the compiler knows about `T`: `alignof(T)` and `sizeof(T)`. */
  datatype Layout = Layout(align: Word, size: Word)
  {
    /** Every type's alignment is a power of two, and its size is a positive
        multiple of its alignment. */
    predicate Valid() {
      IsPow2(align) && size != 0 && IsAligned(size, align)
    }

    /** `meta_bits = ctime_log2(alignof(T))`: the number of tag bits, the
        exponent of the alignment. */
    function MetaBits(): (k: Word)
      requires Valid()
      ensures k < 64 && Bit(k) == align
    {
      Pow2OfCtimeLog2(align);
      CtimeLog2(align)
    }

    /** How far `get() + off` moves the address: `off * sizeof(T)` bytes,
        modulo 2^64. */
    function Offset(off: PtrDiff): Word {
      Scaled(TwosComplement(off), size)
    }
  }

  // -- what each operation computes --

  /** `alignof(T) - 1`: the tag bits. */
  function TagMask(a: Word): Word {
    a - 1
  }

  /** The test `reset` and `reset_clear` make before they change anything. */
  predicate IsAligned(p: Word, a: Word) {
    Masked(p, TagMask(a)) == 0
  }

  /** `get()`: the stored address, tag stripped. */
  function Address(w: Word, a: Word): Word {
    WithoutBits(w, TagMask(a))
  }

  /** `read()`: the tag. */
  function Tag(w: Word, a: Word): Word {
    Masked(w, TagMask(a))
  }

  /** `read<pos>()`: bit `pos` of the word. */
  predicate BitOf(w: Word, pos: Word)
    requires pos < 64
  {
    Masked(w, Bit(pos)) != 0
  }

  /** `raw` after `reset(p)` of an aligned `p`. */
  function AfterReset(w: Word, p: Word, a: Word): Word {
    WithBits(p, Tag(w, a))
  }

  /** `raw` after `write(v)`. */
  function AfterWrite(w: Word, v: Word, a: Word): Word {
    WithBits(Address(w, a), Tag(v, a))
  }

  /** `raw` after `set()`. */
  function AfterSet(w: Word, a: Word): Word {
    WithBits(w, TagMask(a))
  }

  /** `raw` after `clear()`. */
  function AfterClear(w: Word, a: Word): Word {
    WithoutBits(w, TagMask(a))
  }

  /** `raw` after `flip()`. */
  function AfterFlip(w: Word, a: Word): Word {
    Toggled(w, TagMask(a))
  }

  /** `raw` after `set<pos>()`. */
  function AfterSetBit(w: Word, pos: Word): Word
    requires pos < 64
  {
    WithBits(w, Bit(pos))
  }

  /** `raw` after `clear<pos>()`. */
  function AfterClearBit(w: Word, pos: Word): Word
    requires pos < 64
  {
    WithoutBits(w, Bit(pos))
  }

  /** `raw` after `flip<pos>()`. */
  function AfterFlipBit(w: Word, pos: Word): Word
    requires pos < 64
  {
    Toggled(w, Bit(pos))
  }

  // -- laws of the bit-level steps, for any mask `m` --

  /** The two parts of a word: nothing of `d` is under `m`, all of `t` is. */
  lemma SplitPartsLaw(w: Word, m: Word, d: Word, t: Word)
    requires d == WithoutBits(w, m) && t == Masked(w, m)
    ensures Masked(d, m) == 0 && Masked(t, m) == t
  {
  }

  /** The two parts share no bit and together give back the word. */
  lemma RecombineLaw(w: Word, m: Word, d: Word, t: Word)
    requires d == WithoutBits(w, m) && t == Masked(w, m)
    ensures Masked(d, t) == 0 && WithBits(d, t) == w
  {
  }

  /** ... and so adding them never carries. */
  lemma RecombineSumLaw(w: Word, m: Word, d: Word, t: Word)
    requires d == WithoutBits(w, m) && t == Masked(w, m)
    ensures Sum(d, t) == w
  {
  }

  lemma SameMaskLaw(m: Word)
    ensures Masked(m, m) == m
  {
  }

  /** Putting bits under `m` next to a word with none there keeps both. */
  lemma AlignedWithLaw(p: Word, t: Word, m: Word, x: Word)
    requires Masked(p, m) == 0 && Masked(t, m) == t && x == WithBits(p, t)
    ensures WithoutBits(x, m) == p && Masked(x, m) == t
  {
  }

  lemma AlignedLaw(p: Word, m: Word)
    requires Masked(p, m) == 0
    ensures WithoutBits(p, m) == p
  {
  }

  lemma WithOutsideCore(w: Word, b: Word, m: Word, x: Word)
    requires b & m == b && x == w | b
    ensures x & !m == w & !m
  {
  }

  /** Setting bits under `m` leaves the bits outside `m` alone. */
  lemma WithOutsideLaw(w: Word, b: Word, m: Word, x: Word)
    requires Masked(b, m) == b && x == WithBits(w, b)
    ensures WithoutBits(x, m) == WithoutBits(w, m)
  {
    WithOutsideCore(w, b, m, x);
  }

  /** ... and sets them in the part under `m`. */
  lemma WithInsideLaw(w: Word, b: Word, m: Word, x: Word, t: Word)
    requires Masked(b, m) == b && x == WithBits(w, b) && t == Masked(w, m)
    ensures Masked(x, m) == WithBits(t, b)
  {
  }

  lemma WithoutOutsideLaw(w: Word, b: Word, m: Word, x: Word)
    requires Masked(b, m) == b && x == WithoutBits(w, b)
    ensures WithoutBits(x, m) == WithoutBits(w, m)
  {
  }

  lemma WithoutInsideLaw(w: Word, b: Word, m: Word, x: Word, t: Word)
    requires Masked(b, m) == b && x == WithoutBits(w, b) && t == Masked(w, m)
    ensures Masked(x, m) == WithoutBits(t, b)
  {
  }

  lemma ToggledOutsideCore(w: Word, b: Word, m: Word, x: Word)
    requires b & m == b && x == w ^ b
    ensures x & !m == w & !m
  {
  }

  lemma ToggledOutsideLaw(w: Word, b: Word, m: Word, x: Word)
    requires Masked(b, m) == b && x == Toggled(w, b)
    ensures WithoutBits(x, m) == WithoutBits(w, m)
  {
    ToggledOutsideCore(w, b, m, x);
  }

  lemma ToggledInsideLaw(w: Word, b: Word, m: Word, x: Word, t: Word)
    requires Masked(b, m) == b && x == Toggled(w, b) && t == Masked(w, m)
    ensures Masked(x, m) == Toggled(t, b)
  {
  }

  /** A part under `m` with every bit of `m` set is `m`; with every bit of
      `m` cleared it is 0. */
  lemma FullMaskLaw(t: Word, m: Word)
    requires Masked(t, m) == t
    ensures WithBits(t, m) == m && WithoutBits(t, m) == 0
  {
  }

  /** Flipping the bits of `m` in a part `t` under `m` gives the bits of
      `m` outside `t` ... */
  lemma ComplementDisjointLaw(t: Word, m: Word, u: Word)
    requires Masked(t, m) == t && u == Toggled(t, m)
    ensures Masked(u, t) == 0
  {
  }

  /** ... which together with `t` make up `m` ... */
  lemma ComplementUnionLaw(t: Word, m: Word, u: Word)
    requires Masked(t, m) == t && u == Toggled(t, m)
    ensures WithBits(u, t) == m
  {
  }

  /** ... and adding words without common bits carries nothing. */
  lemma DisjointSumLaw(u: Word, t: Word)
    requires Masked(u, t) == 0
    ensures Sum(u, t) == WithBits(u, t)
  {
    DisjointSumCore(u, t);
  }

  lemma DisjointSumCore(u: Word, t: Word)
    requires u & t == 0
    ensures u + t == u | t
  {
  }

  /** Flipping every bit of `m` in a part under `m` is `m` minus the part. */
  lemma ComplementLaw(t: Word, m: Word)
    requires Masked(t, m) == t
    ensures Toggled(t, m) == Difference(m, t)
  {
    var u := Toggled(t, m);
    ComplementDisjointLaw(t, m, u);
    ComplementUnionLaw(t, m, u);
    DisjointSumLaw(u, t);
    MoveBackLaw(u, t);
  }

  lemma ToggledTwiceLaw(w: Word, b: Word, x: Word)
    requires x == Toggled(w, b)
    ensures Toggled(x, b) == w
  {
  }

  lemma MaskedTwiceLaw(w: Word, b: Word, m: Word, t: Word)
    requires Masked(b, m) == b && t == Masked(w, m)
    ensures Masked(t, b) == Masked(w, b)
  {
  }

  lemma WithOwnLaw(w: Word, b: Word, x: Word)
    requires x == WithBits(w, b)
    ensures Masked(x, b) == b
  {
  }

  lemma WithoutOwnLaw(w: Word, b: Word, x: Word)
    requires x == WithoutBits(w, b)
    ensures Masked(x, b) == 0
  {
  }

  lemma ToggledOwnLaw(w: Word, b: Word, x: Word, u: Word)
    requires x == Toggled(w, b) && u == Masked(w, b)
    ensures Masked(x, b) == Toggled(u, b)
  {
  }

  lemma WithDisjointLaw(w: Word, b: Word, c: Word, x: Word)
    requires Masked(b, c) == 0 && x == WithBits(w, b)
    ensures Masked(x, c) == Masked(w, c)
  {
  }

  lemma WithoutDisjointLaw(w: Word, b: Word, c: Word, x: Word)
    requires Masked(b, c) == 0 && x == WithoutBits(w, b)
    ensures Masked(x, c) == Masked(w, c)
  {
  }

  lemma ToggledDisjointLaw(w: Word, b: Word, c: Word, x: Word)
    requires Masked(b, c) == 0 && x == Toggled(w, b)
    ensures Masked(x, c) == Masked(w, c)
  {
  }

  /** A single bit of a word is either clear or the bit itself. */
  lemma SingleBitLaw(w: Word, pos: Word, b: Word)
    requires pos < 64 && b == Bit(pos)
    ensures b != 0
    ensures Masked(w, b) == 0 || Masked(w, b) == b
    ensures Toggled(0, b) == b && Toggled(b, b) == 0
  {
  }

  lemma DistinctBitsLaw(pos: Word, q: Word, b: Word, c: Word)
    requires pos < 64 && q < 64 && pos != q && b == Bit(pos) && c == Bit(q)
    ensures Masked(b, c) == 0
  {
  }

  /** For `a == 2^k`, every bit below `k` is a tag bit. */
  lemma TagBitLaw(pos: Word, k: Word, a: Word, b: Word, m: Word)
    requires k < 64 && Bit(k) == a && pos < k && b == Bit(pos) && m == TagMask(a)
    ensures Masked(b, m) == b
  {
  }

  /** For a power of two `a`, everything under `a - 1` is below `a`. */
  lemma BelowMaskLaw(w: Word, a: Word, m: Word, t: Word)
    requires IsPow2(a) && m == TagMask(a) && t == Masked(w, m)
    ensures t < a
  {
  }

  /** For a power of two `a`, what is left above `a - 1` is non-zero exactly
      when the word reaches `a`. */
  lemma NonZeroAddressLaw(w: Word, a: Word, m: Word, d: Word)
    requires IsPow2(a) && m == TagMask(a) && d == WithoutBits(w, m)
    ensures d != 0 <==> w >= a
  {
  }

  /** A multiple of a word with no bit under `a - 1` has none either, even
      after wrap-around. */
  lemma ScaledAlignedLaw(t: Word, s: Word, a: Word, m: Word, x: Word)
    requires IsPow2(a) && m == TagMask(a) && Masked(s, m) == 0 && x == Scaled(t, s)
    ensures Masked(x, m) == 0
  {
  }

  /** So has a sum of two such words ... */
  lemma SumAlignedLaw(p: Word, d: Word, a: Word, m: Word, x: Word)
    requires IsPow2(a) && m == TagMask(a) && Masked(p, m) == 0 && Masked(d, m) == 0
    requires x == Sum(p, d)
    ensures Masked(x, m) == 0
  {
  }

  /** ... and their difference. */
  lemma DifferenceAlignedLaw(p: Word, d: Word, a: Word, m: Word, x: Word)
    requires IsPow2(a) && m == TagMask(a) && Masked(p, m) == 0 && Masked(d, m) == 0
    requires x == Difference(p, d)
    ensures Masked(x, m) == 0
  {
  }

  // -- the split of a word into address and tag --

  /** The decomposition every `raw` satisfies: an aligned address and a tag
      below the alignment, in disjoint bits, adding up to the word. */
  predicate Decomposes(w: Word, a: Word) {
    && IsAligned(Address(w, a), a)
    && Tag(w, a) < a
    && Masked(Address(w, a), Tag(w, a)) == 0
    && Sum(Address(w, a), Tag(w, a)) == w
  }

  /** Every word decomposes, whatever its value. */
  lemma DecomposesAlways(w: Word, a: Word)
    requires IsPow2(a)
    ensures Decomposes(w, a)
  {
    var m, d, t := TagMask(a), Address(w, a), Tag(w, a);
    SplitPartsLaw(w, m, d, t);
    RecombineLaw(w, m, d, t);
    RecombineSumLaw(w, m, d, t);
    BelowMaskLaw(w, a, m, t);
  }

  /** A word is determined by its address and its tag. */
  lemma SamePartsLaw(w: Word, u: Word, a: Word)
    requires Address(w, a) == Address(u, a) && Tag(w, a) == Tag(u, a)
    ensures w == u
  {
    RecombineLaw(w, TagMask(a), Address(w, a), Tag(w, a));
    RecombineLaw(u, TagMask(a), Address(u, a), Tag(u, a));
  }

  /** The address is non-null exactly when the word reaches `a`: no tag
      alone makes a null pointer non-null. */
  lemma NonNullLaw(w: Word, a: Word)
    requires IsPow2(a)
    ensures Address(w, a) != 0 <==> w >= a
  {
    NonZeroAddressLaw(w, a, TagMask(a), Address(w, a));
  }

  /** A word minus its own tag is aligned: with `Tag(v, a) < a` this makes
      the tag the remainder of `v` modulo `a`. */
  lemma TagRemainderLaw(v: Word, a: Word)
    requires IsPow2(a)
    ensures IsAligned(Difference(v, Tag(v, a)), a)
  {
    var m, d, t := TagMask(a), Address(v, a), Tag(v, a);
    RecombineSumLaw(v, m, d, t);
    MoveBackLaw(d, t);
    SplitPartsLaw(v, m, d, t);
  }

  // -- replacing the address --

  /** `reset(p)` of an aligned `p` stores `p` ... */
  lemma ResetAddressLaw(w: Word, p: Word, a: Word)
    requires IsAligned(p, a)
    ensures Address(AfterReset(w, p, a), a) == p
  {
    SplitPartsLaw(w, TagMask(a), Address(w, a), Tag(w, a));
    AlignedWithLaw(p, Tag(w, a), TagMask(a), AfterReset(w, p, a));
  }

  /** ... and keeps the tag. */
  lemma ResetTagLaw(w: Word, p: Word, a: Word)
    requires IsAligned(p, a)
    ensures Tag(AfterReset(w, p, a), a) == Tag(w, a)
  {
    SplitPartsLaw(w, TagMask(a), Address(w, a), Tag(w, a));
    AlignedWithLaw(p, Tag(w, a), TagMask(a), AfterReset(w, p, a));
  }

  /** An aligned `p` stored as it is (`reset_clear`): address `p`, tag 0. */
  lemma AlignedWordLaw(p: Word, a: Word)
    requires IsAligned(p, a)
    ensures Address(p, a) == p && Tag(p, a) == 0
  {
    AlignedLaw(p, TagMask(a));
  }

  // -- replacing the tag --

  /** `write(v)` keeps the address ... */
  lemma WriteAddressLaw(w: Word, v: Word, a: Word)
    ensures Address(AfterWrite(w, v, a), a) == Address(w, a)
  {
    SplitPartsLaw(w, TagMask(a), Address(w, a), Tag(w, a));
    SplitPartsLaw(v, TagMask(a), Address(v, a), Tag(v, a));
    AlignedWithLaw(Address(w, a), Tag(v, a), TagMask(a), AfterWrite(w, v, a));
  }

  /** ... and stores the low bits of `v`, which are `v`'s own tag. */
  lemma WriteTagLaw(w: Word, v: Word, a: Word)
    ensures Tag(AfterWrite(w, v, a), a) == Tag(v, a)
  {
    SplitPartsLaw(w, TagMask(a), Address(w, a), Tag(w, a));
    SplitPartsLaw(v, TagMask(a), Address(v, a), Tag(v, a));
    AlignedWithLaw(Address(w, a), Tag(v, a), TagMask(a), AfterWrite(w, v, a));
  }

  /** `set()` keeps the address ... */
  lemma SetAddressLaw(w: Word, a: Word)
    ensures Address(AfterSet(w, a), a) == Address(w, a)
  {
    SameMaskLaw(TagMask(a));
    WithOutsideLaw(w, TagMask(a), TagMask(a), AfterSet(w, a));
  }

  /** ... and sets every tag bit. */
  lemma SetTagLaw(w: Word, a: Word)
    ensures Tag(AfterSet(w, a), a) == TagMask(a)
  {
    var m, t := TagMask(a), Tag(w, a);
    SameMaskLaw(m);
    WithInsideLaw(w, m, m, AfterSet(w, a), t);
    SplitPartsLaw(w, m, Address(w, a), t);
    FullMaskLaw(t, m);
  }

  /** `clear()` keeps the address ... */
  lemma ClearAddressLaw(w: Word, a: Word)
    ensures Address(AfterClear(w, a), a) == Address(w, a)
  {
    SameMaskLaw(TagMask(a));
    WithoutOutsideLaw(w, TagMask(a), TagMask(a), AfterClear(w, a));
  }

  /** ... and clears every tag bit. */
  lemma ClearTagLaw(w: Word, a: Word)
    ensures Tag(AfterClear(w, a), a) == 0
  {
    var m, t := TagMask(a), Tag(w, a);
    SameMaskLaw(m);
    WithoutInsideLaw(w, m, m, AfterClear(w, a), t);
    SplitPartsLaw(w, m, Address(w, a), t);
    FullMaskLaw(t, m);
  }

  /** `flip()` keeps the address ... */
  lemma FlipAddressLaw(w: Word, a: Word)
    ensures Address(AfterFlip(w, a), a) == Address(w, a)
  {
    SameMaskLaw(TagMask(a));
    ToggledOutsideLaw(w, TagMask(a), TagMask(a), AfterFlip(w, a));
  }

  /** ... and flips every tag bit: the new tag is the old one xor
      `alignof(T) - 1` ... */
  lemma FlipTagLaw(w: Word, a: Word)
    ensures Tag(AfterFlip(w, a), a) == Toggled(Tag(w, a), TagMask(a))
  {
    SameMaskLaw(TagMask(a));
    ToggledInsideLaw(w, TagMask(a), TagMask(a), AfterFlip(w, a), Tag(w, a));
  }

  /** ... which is `alignof(T) - 1` minus the old tag. */
  lemma FlipComplementLaw(w: Word, a: Word)
    ensures Toggled(Tag(w, a), TagMask(a)) == Difference(TagMask(a), Tag(w, a))
  {
    SplitPartsLaw(w, TagMask(a), Address(w, a), Tag(w, a));
    ComplementLaw(Tag(w, a), TagMask(a));
  }

  /** `flip()` twice restores the word. */
  lemma FlipTwiceLaw(w: Word, a: Word)
    ensures AfterFlip(AfterFlip(w, a), a) == w
  {
    ToggledTwiceLaw(w, TagMask(a), AfterFlip(w, a));
  }

  // -- single tag bits, for `a == 2^k` and `pos < k` --

  /** `read<pos>()` is bit `pos` of `read()`. */
  lemma BitOfTagLaw(w: Word, pos: Word, k: Word, a: Word)
    requires k < 64 && Bit(k) == a && pos < k
    ensures BitOf(w, pos) <==> BitOf(Tag(w, a), pos)
  {
    TagBitLaw(pos, k, a, Bit(pos), TagMask(a));
    MaskedTwiceLaw(w, Bit(pos), TagMask(a), Tag(w, a));
  }

  /** `set<pos>()` keeps the address ... */
  lemma SetBitAddressLaw(w: Word, pos: Word, k: Word, a: Word)
    requires k < 64 && Bit(k) == a && pos < k
    ensures Address(AfterSetBit(w, pos), a) == Address(w, a)
  {
    TagBitLaw(pos, k, a, Bit(pos), TagMask(a));
    WithOutsideLaw(w, Bit(pos), TagMask(a), AfterSetBit(w, pos));
  }

  /** ... and sets bit `pos` of the tag. */
  lemma SetBitTagLaw(w: Word, pos: Word, k: Word, a: Word)
    requires k < 64 && Bit(k) == a && pos < k
    ensures Tag(AfterSetBit(w, pos), a) == WithBits(Tag(w, a), Bit(pos))
  {
    TagBitLaw(pos, k, a, Bit(pos), TagMask(a));
    WithInsideLaw(w, Bit(pos), TagMask(a), AfterSetBit(w, pos), Tag(w, a));
  }

  /** `clear<pos>()` keeps the address ... */
  lemma ClearBitAddressLaw(w: Word, pos: Word, k: Word, a: Word)
    requires k < 64 && Bit(k) == a && pos < k
    ensures Address(AfterClearBit(w, pos), a) == Address(w, a)
  {
    TagBitLaw(pos, k, a, Bit(pos), TagMask(a));
    WithoutOutsideLaw(w, Bit(pos), TagMask(a), AfterClearBit(w, pos));
  }

  /** ... and clears bit `pos` of the tag. */
  lemma ClearBitTagLaw(w: Word, pos: Word, k: Word, a: Word)
    requires k < 64 && Bit(k) == a && pos < k
    ensures Tag(AfterClearBit(w, pos), a) == WithoutBits(Tag(w, a), Bit(pos))
  {
    TagBitLaw(pos, k, a, Bit(pos), TagMask(a));
    WithoutInsideLaw(w, Bit(pos), TagMask(a), AfterClearBit(w, pos), Tag(w, a));
  }

  /** `flip<pos>()` keeps the address ... */
  lemma FlipBitAddressLaw(w: Word, pos: Word, k: Word, a: Word)
    requires k < 64 && Bit(k) == a && pos < k
    ensures Address(AfterFlipBit(w, pos), a) == Address(w, a)
  {
    TagBitLaw(pos, k, a, Bit(pos), TagMask(a));
    ToggledOutsideLaw(w, Bit(pos), TagMask(a), AfterFlipBit(w, pos));
  }

  /** ... and flips bit `pos` of the tag. */
  lemma FlipBitTagLaw(w: Word, pos: Word, k: Word, a: Word)
    requires k < 64 && Bit(k) == a && pos < k
    ensures Tag(AfterFlipBit(w, pos), a) == Toggled(Tag(w, a), Bit(pos))
  {
    TagBitLaw(pos, k, a, Bit(pos), TagMask(a));
    ToggledInsideLaw(w, Bit(pos), TagMask(a), AfterFlipBit(w, pos), Tag(w, a));
  }

  /** After `set<pos>()`, bit `q` reads set exactly when it is bit `pos` or
      was set before. */
  lemma SetBitReadLaw(w: Word, pos: Word, q: Word)
    requires pos < 64 && q < 64
    ensures BitOf(AfterSetBit(w, pos), q) <==> q == pos || BitOf(w, q)
  {
    var b, x := Bit(pos), AfterSetBit(w, pos);
    if q == pos {
      WithOwnLaw(w, b, x);
      SingleBitLaw(w, pos, b);
    } else {
      DistinctBitsLaw(pos, q, b, Bit(q));
      WithDisjointLaw(w, b, Bit(q), x);
    }
  }

  /** After `clear<pos>()`, bit `q` reads set exactly when it is not bit
      `pos` and was set before. */
  lemma ClearBitReadLaw(w: Word, pos: Word, q: Word)
    requires pos < 64 && q < 64
    ensures BitOf(AfterClearBit(w, pos), q) <==> q != pos && BitOf(w, q)
  {
    var b, x := Bit(pos), AfterClearBit(w, pos);
    if q == pos {
      WithoutOwnLaw(w, b, x);
    } else {
      DistinctBitsLaw(pos, q, b, Bit(q));
      WithoutDisjointLaw(w, b, Bit(q), x);
    }
  }

  /** After `flip<pos>()`, bit `q` reads the opposite of before exactly when
      it is bit `pos`. */
  lemma FlipBitReadLaw(w: Word, pos: Word, q: Word)
    requires pos < 64 && q < 64
    ensures BitOf(AfterFlipBit(w, pos), q) <==> (BitOf(w, q) != (q == pos))
  {
    var b, x := Bit(pos), AfterFlipBit(w, pos);
    if q == pos {
      ToggledOwnLaw(w, b, x, Masked(w, b));
      SingleBitLaw(w, pos, b);
    } else {
      DistinctBitsLaw(pos, q, b, Bit(q));
      ToggledDisjointLaw(w, b, Bit(q), x);
    }
  }

  /** `set<pos>()` read bit by bit: bit `pos` is set, every other bit is as
      it was. */
  lemma SetBitReadAllLaw(w: Word, pos: Word)
    requires pos < 64
    ensures forall q :: q < 64 ==> (BitOf(AfterSetBit(w, pos), q) <==> q == pos || BitOf(w, q))
  {
    forall q | q < 64
      ensures BitOf(AfterSetBit(w, pos), q) <==> q == pos || BitOf(w, q)
    {
      SetBitReadLaw(w, pos, q);
    }
  }

  /** `clear<pos>()` read bit by bit: bit `pos` is clear, every other bit is
      as it was. */
  lemma ClearBitReadAllLaw(w: Word, pos: Word)
    requires pos < 64
    ensures forall q :: q < 64 ==> (BitOf(AfterClearBit(w, pos), q) <==> q != pos && BitOf(w, q))
  {
    forall q | q < 64
      ensures BitOf(AfterClearBit(w, pos), q) <==> q != pos && BitOf(w, q)
    {
      ClearBitReadLaw(w, pos, q);
    }
  }

  /** `flip<pos>()` read bit by bit: bit `pos` is reversed, every other bit
      is as it was. */
  lemma FlipBitReadAllLaw(w: Word, pos: Word)
    requires pos < 64
    ensures forall q :: q < 64 ==> (BitOf(AfterFlipBit(w, pos), q) <==> (BitOf(w, q) != (q == pos)))
  {
    forall q | q < 64
      ensures BitOf(AfterFlipBit(w, pos), q) <==> (BitOf(w, q) != (q == pos))
    {
      FlipBitReadLaw(w, pos, q);
    }
  }

  // -- equality with a raw pointer --

  /** The address is `r` exactly when `r` is aligned and `reset(r)` leaves
      the word as it is. */
  lemma AddressIsLaw(w: Word, r: Word, a: Word)
    requires IsPow2(a)
    ensures Address(w, a) == r <==> IsAligned(r, a) && AfterReset(w, r, a) == w
  {
    RecombineLaw(w, TagMask(a), Address(w, a), Tag(w, a));
    SplitPartsLaw(w, TagMask(a), Address(w, a), Tag(w, a));
    if IsAligned(r, a) {
      ResetAddressLaw(w, r, a);
    }
  }

  // -- address arithmetic --

  /** Every offset moves by a multiple of `sizeof(T)`, which is aligned. */
  lemma OffsetAlignedLaw(L: Layout, off: PtrDiff)
    requires L.Valid()
    ensures IsAligned(L.Offset(off), L.align)
  {
    ScaledAlignedLaw(TwosComplement(off), L.size, L.align, TagMask(L.align), L.Offset(off));
  }

  /** Moving an aligned address up by any offset keeps it aligned, even
      after wrap-around: `+=` and `++` never reach the failure of `reset`. */
  lemma MoveUpAlignedLaw(L: Layout, p: Word, off: PtrDiff)
    requires L.Valid() && IsAligned(p, L.align)
    ensures IsAligned(Sum(p, L.Offset(off)), L.align)
  {
    OffsetAlignedLaw(L, off);
    SumAlignedLaw(p, L.Offset(off), L.align, TagMask(L.align), Sum(p, L.Offset(off)));
  }

  /** ... and so does moving it down: `-=` and `--`. */
  lemma MoveDownAlignedLaw(L: Layout, p: Word, off: PtrDiff)
    requires L.Valid() && IsAligned(p, L.align)
    ensures IsAligned(Difference(p, L.Offset(off)), L.align)
  {
    OffsetAlignedLaw(L, off);
    DifferenceAlignedLaw(p, L.Offset(off), L.align, TagMask(L.align), Difference(p, L.Offset(off)));
  }

  /** Moving by a distance and back, in either order, restores the
      address. */
  lemma MoveBackLaw(p: Word, d: Word)
    ensures Difference(Sum(p, d), d) == p
    ensures Sum(Difference(p, d), d) == p
  {
    SumIsAddition(p, d);
    DifferenceIsSubtraction(p + d, d);
    DifferenceIsSubtraction(p, d);
    SumIsAddition(p - d, d);
  }

  /* The unfoldings below are lemmas so that the solver simplifies the
     arithmetic in the facts they give (`(p + d) - d` becomes `p`), and the
     laws that use them need only congruence. */

  lemma SumIsAddition(p: Word, d: Word)
    ensures Sum(p, d) == p + d
  {
  }

  lemma DifferenceIsSubtraction(p: Word, d: Word)
    ensures Difference(p, d) == p - d
  {
  }

  /** Twice `t` elements are `t` elements twice, modulo 2^64.  Stated over a
      symbolic count: with a literal count the solver rewrites `t * s` in
      the goal but not in the unfolded `Scaled`, and the two stop matching. */
  lemma ScaledDoublingLaw(t: Word, s: Word)
    ensures Sum(Scaled(t, s), Scaled(t, s)) == Scaled(t + t, s)
  {
    SumIsAddition(Scaled(t, s), Scaled(t, s));
  }

  /** Minus `t` elements are the negation of `t` elements, modulo 2^64. */
  lemma ScaledNegationLaw(t: Word, s: Word)
    ensures Scaled(0 - t, s) == Difference(0, Scaled(t, s))
  {
    DifferenceIsSubtraction(0, Scaled(t, s));
  }

  /** Forward by `x`, back by `x + x` and forward by `x` again is where it
      started, modulo 2^64. */
  lemma ThereAndBackLaw(p: Word, x: Word, y: Word)
    requires Sum(x, x) == y
    ensures Sum(Difference(Sum(p, x), y), x) == p
  {
    SumIsAddition(p, x);
    SumIsAddition(x, x);
    DifferenceIsSubtraction(p + x, x + x);
    SumIsAddition((p + x) - (x + x), x);
  }

  /** Moving forward by the negation of `x` is moving back by `x` ... */
  lemma NegatedMoveUpLaw(p: Word, x: Word, y: Word)
    requires y == Difference(0, x)
    ensures Sum(p, y) == Difference(p, x)
  {
    DifferenceIsSubtraction(0, x);
    SumIsAddition(p, 0 - x);
    DifferenceIsSubtraction(p, x);
  }

  /** ... and moving back by it is moving forward by `x`. */
  lemma NegatedMoveDownLaw(p: Word, x: Word, y: Word)
    requires y == Difference(0, x)
    ensures Difference(p, y) == Sum(p, x)
  {
    DifferenceIsSubtraction(0, x);
    DifferenceIsSubtraction(p, 0 - x);
    SumIsAddition(p, x);
  }

  /** `++` and `--` move by one element: `sizeof(T)` bytes. */
  lemma UnitOffsetLaw(L: Layout)
    ensures L.Offset(1) == L.size
  {
    assert TwosComplement(1) == 1;
  }
}
