/**
  `meta_ptr<T>`: a pointer to `T` that keeps caller metadata (the tag) in the
  low `meta_bits` bits of the address, the bits that the alignment of `T`
  forces to zero.  The only state is the word `raw`.

  What the compiler knows about `T` is the `Layout` each object carries.
  Every operation either reads `raw` (a function) or replaces it (a method
  with `modifies this`); each method states its new `raw` as the `RawWord`
  function of the old one, and what that means for `get()` and `read()`.
  That `raw` always splits into an aligned `get()` and a `read()` below
  `alignof(T)` is not an invariant to maintain: it holds of every word
  (`RawWord.DecomposesAlways`), and the contracts of `Get` and `Read` say
  it.
 */
module MetaPointers {

  import opened RawWord

  /** The one error of the class: the `std::invalid_argument` that `reset`
      and `reset_clear` throw, with its message. */
  datatype Error = InvalidArgument(what: string)

  const Unaligned: Error := InvalidArgument("ptr was not aligned")

  /** How a call that may throw and otherwise returns nothing ends. */
  datatype Outcome = Pass | Fail(error: Error)

  /** How a construction that may throw ends. */
  datatype Result<T> = Success(value: T) | Failure(error: Error)

  class MetaPtr {
    /** `alignof(T)` and `sizeof(T)`, fixed by the type of the pointer. */
    const layout: Layout
    /** The raw value containing the pointer and the metadata. */
    var raw: Word

    // -- pointer data --

    /** `get()`: the stored pointer with the metadata stripped; it is always
        aligned. */
    function Get(): (p: Word)
      requires layout.Valid()
      reads this
      ensures IsAligned(p, layout.align)
    {
      DecomposesAlways(raw, layout.align);
      Address(raw, layout.align)
    }

    /** `read()`: the metadata.  It is below `alignof(T)`, shares no bit with
        `get()`, and with `get()` adds up to the whole word. */
    function Read(): (t: Word)
      requires layout.Valid()
      reads this
      ensures t < layout.align && Masked(Get(), t) == 0 && Sum(Get(), t) == raw
    {
      DecomposesAlways(raw, layout.align);
      Tag(raw, layout.align)
    }

    /** `read<pos>()`: bit `pos` of the metadata. */
    function ReadBit(pos: Word): (b: bool)
      requires layout.Valid() && pos < layout.MetaBits()
      reads this
      ensures b <==> BitOf(Read(), pos)
    {
      BitOfTagLaw(raw, pos, layout.MetaBits(), layout.align);
      BitOf(raw, pos)
    }

    /** `operator bool`: the stored pointer is non-null.  No tag makes a null
        pointer true: only a word of at least `alignof(T)` does. */
    function IsNonNull(): (b: bool)
      requires layout.Valid()
      reads this
      ensures b <==> raw >= layout.align
    {
      NonNullLaw(raw, layout.align);
      Get() != 0
    }

    /** `operator!`: the stored pointer is null, whatever the tag; the word is
        then below `alignof(T)`. */
    function IsNull(): (b: bool)
      requires layout.Valid()
      reads this
      ensures b <==> raw < layout.align
    {
      NonNullLaw(raw, layout.align);
      Get() == 0
    }

    // -- comparison --

    /** `a == b` of two `meta_ptr`s: the same object AND the same metadata. */
    function Equals(other: MetaPtr): (e: bool)
      requires layout.Valid() && other.layout == layout
      reads this, other
      ensures e <==> Get() == other.Get() && Read() == other.Read()
    {
      if Get() == other.Get() && Read() == other.Read() then
        SamePartsLaw(raw, other.raw, layout.align);
        raw == other.raw
      else
        raw == other.raw
    }

    /** `a != b`: different objects OR different metadata. */
    function NotEquals(other: MetaPtr): (e: bool)
      requires layout.Valid() && other.layout == layout
      reads this, other
      ensures e <==> Get() != other.Get() || Read() != other.Read()
    {
      if Get() == other.Get() && Read() == other.Read() then
        SamePartsLaw(raw, other.raw, layout.align);
        raw != other.raw
      else
        raw != other.raw
    }

    /** `m == r` and `r == m` for a raw pointer `r`: the same object,
        whatever the tag.  That is, `r` is aligned and `reset(r)` would leave
        the word as it is. */
    function EqualsPointer(r: Word): (e: bool)
      requires layout.Valid()
      reads this
      ensures e <==> IsAligned(r, layout.align) && AfterReset(raw, r, layout.align) == raw
    {
      AddressIsLaw(raw, r, layout.align);
      Get() == r
    }

    /** `m != r` and `r != m`: different objects, whatever the tag. */
    function NotEqualsPointer(r: Word): (e: bool)
      requires layout.Valid()
      reads this
      ensures e <==> !IsAligned(r, layout.align) || AfterReset(raw, r, layout.align) != raw
    {
      AddressIsLaw(raw, r, layout.align);
      Get() != r
    }

    // -- construction and assignment --

    /** `meta_ptr()`: `reset_clear(nullptr)`, which cannot fail, so a null
        address with zeroed metadata. */
    constructor (layout: Layout)
      requires layout.Valid()
      ensures this.layout == layout && raw == 0
      ensures Get() == 0 && Read() == 0
    {
      this.layout := layout;
      raw := 0;
      new;
      AlignedWordLaw(0, layout.align);
    }

    /** `meta_ptr(ptr)`: `reset_clear(ptr)` on a new object.  An unaligned
        `ptr` throws, and no object comes into being. */
    static method FromPointer(layout: Layout, ptr: Word) returns (r: Result<MetaPtr>)
      requires layout.Valid()
      ensures r.Success? <==> IsAligned(ptr, layout.align)
      ensures r.Failure? ==> r.error == Unaligned
      ensures r.Success? ==> fresh(r.value) && r.value.layout == layout && r.value.raw == ptr
      ensures r.Success? ==> r.value.Get() == ptr && r.value.Read() == 0
    {
      var m := new MetaPtr(layout);
      var outcome := m.ResetClear(ptr);
      if outcome.Fail? {
        return Failure(outcome.error);
      }
      return Success(m);
    }

    /** The defaulted copy constructor: pointer and metadata together. */
    constructor Copy(other: MetaPtr)
      requires other.layout.Valid()
      ensures layout == other.layout && raw == other.raw
      ensures Get() == other.Get() && Read() == other.Read()
    {
      layout := other.layout;
      raw := other.raw;
    }

    /** The defaulted copy assignment: takes the whole state of `other`. */
    method Assign(other: MetaPtr)
      requires layout.Valid() && other.layout == layout
      modifies this
      ensures raw == old(other.raw)
      ensures Get() == old(other.Get()) && Read() == old(other.Read())
    {
      raw := other.raw;
    }

    /** `reset(ptr)`: replaces the address and keeps the metadata.  An
        unaligned `ptr` throws and changes nothing. */
    method Reset(ptr: Word) returns (outcome: Outcome)
      requires layout.Valid()
      modifies this
      ensures outcome.Pass? <==> IsAligned(ptr, layout.align)
      ensures outcome.Fail? ==> outcome.error == Unaligned && raw == old(raw)
      ensures outcome.Pass? ==> raw == AfterReset(old(raw), ptr, layout.align)
      ensures outcome.Pass? ==> Get() == ptr && Read() == old(Read())
    {
      if Masked(ptr, TagMask(layout.align)) != 0 {
        return Fail(Unaligned);
      }
      ResetAddressLaw(raw, ptr, layout.align);
      ResetTagLaw(raw, ptr, layout.align);
      raw := WithBits(ptr, Masked(raw, TagMask(layout.align)));
      return Pass;
    }

    /** `reset_clear(ptr)`: replaces the address and zeroes the metadata.  An
        unaligned `ptr` throws and changes nothing. */
    method ResetClear(ptr: Word) returns (outcome: Outcome)
      requires layout.Valid()
      modifies this
      ensures outcome.Pass? <==> IsAligned(ptr, layout.align)
      ensures outcome.Fail? ==> outcome.error == Unaligned && raw == old(raw)
      ensures outcome.Pass? ==> raw == ptr
      ensures outcome.Pass? ==> Get() == ptr && Read() == 0
    {
      if Masked(ptr, TagMask(layout.align)) != 0 {
        return Fail(Unaligned);
      }
      AlignedWordLaw(ptr, layout.align);
      raw := ptr;
      return Pass;
    }

    /** `operator=(ptr)`: assignment from a raw pointer is `reset`, so the
        metadata stays, unlike the copy assignment `Assign`. */
    method AssignPointer(ptr: Word) returns (outcome: Outcome)
      requires layout.Valid()
      modifies this
      ensures outcome.Pass? <==> IsAligned(ptr, layout.align)
      ensures outcome.Fail? ==> outcome.error == Unaligned && raw == old(raw)
      ensures outcome.Pass? ==> raw == AfterReset(old(raw), ptr, layout.align)
      ensures outcome.Pass? ==> Get() == ptr && Read() == old(Read())
    {
      outcome := Reset(ptr);
    }

    // -- pointer arithmetic --

    /** Prefix `++`: `reset(get() + 1)`, one element forward.  It is
        `noexcept` around a `reset` that never throws, because `sizeof(T)` is
        a multiple of `alignof(T)`. */
    method Increment()
      requires layout.Valid()
      modifies this
      ensures raw == AfterReset(old(raw), Sum(old(Get()), layout.size), layout.align)
      ensures Get() == Sum(old(Get()), layout.size) && Read() == old(Read())
    {
      UnitOffsetLaw(layout);
      MoveUpAlignedLaw(layout, Get(), 1);
      var outcome := Reset(Sum(Get(), layout.size));
      assert outcome.Pass?;
    }

    /** Prefix `--`: `reset(get() - 1)`; its `reset` never throws either. */
    method Decrement()
      requires layout.Valid()
      modifies this
      ensures raw == AfterReset(old(raw), Difference(old(Get()), layout.size), layout.align)
      ensures Get() == Difference(old(Get()), layout.size) && Read() == old(Read())
    {
      UnitOffsetLaw(layout);
      MoveDownAlignedLaw(layout, Get(), 1);
      var outcome := Reset(Difference(Get(), layout.size));
      assert outcome.Pass?;
    }

    /** Postfix `++`: increments, and returns a copy of the prior state. */
    method PostIncrement() returns (prior: MetaPtr)
      requires layout.Valid()
      modifies this
      ensures raw == AfterReset(old(raw), Sum(old(Get()), layout.size), layout.align)
      ensures Get() == Sum(old(Get()), layout.size) && Read() == old(Read())
      ensures fresh(prior) && prior.layout == layout && prior.raw == old(raw)
    {
      prior := new MetaPtr.Copy(this);
      Increment();
    }

    /** Postfix `--`: decrements, and returns a copy of the prior state. */
    method PostDecrement() returns (prior: MetaPtr)
      requires layout.Valid()
      modifies this
      ensures raw == AfterReset(old(raw), Difference(old(Get()), layout.size), layout.align)
      ensures Get() == Difference(old(Get()), layout.size) && Read() == old(Read())
      ensures fresh(prior) && prior.layout == layout && prior.raw == old(raw)
    {
      prior := new MetaPtr.Copy(this);
      Decrement();
    }

    /** `+= off`: `reset(get() + off)`, which moves the address `off`
        elements on, modulo 2^64, keeps the metadata and never throws. */
    method AddAssign(off: PtrDiff)
      requires layout.Valid()
      modifies this
      ensures raw == AfterReset(old(raw), Sum(old(Get()), layout.Offset(off)), layout.align)
      ensures Get() == Sum(old(Get()), layout.Offset(off)) && Read() == old(Read())
    {
      MoveUpAlignedLaw(layout, Get(), off);
      var outcome := Reset(Sum(Get(), layout.Offset(off)));
      assert outcome.Pass?;
    }

    /** `-= off`: `reset(get() - off)`, which moves the address `off`
        elements back, modulo 2^64, keeps the metadata and never throws. */
    method SubAssign(off: PtrDiff)
      requires layout.Valid()
      modifies this
      ensures raw == AfterReset(old(raw), Difference(old(Get()), layout.Offset(off)), layout.align)
      ensures Get() == Difference(old(Get()), layout.Offset(off)) && Read() == old(Read())
    {
      MoveDownAlignedLaw(layout, Get(), off);
      var outcome := Reset(Difference(Get(), layout.Offset(off)));
      assert outcome.Pass?;
    }

    /** Binary `p + off` and `off + p`: `p` is taken by value, so the result
        is a moved copy and `this` is left as it is. */
    method Plus(off: PtrDiff) returns (q: MetaPtr)
      requires layout.Valid()
      ensures fresh(q) && q.layout == layout
      ensures q.raw == AfterReset(raw, Sum(Get(), layout.Offset(off)), layout.align)
      ensures q.Get() == Sum(Get(), layout.Offset(off)) && q.Read() == Read()
    {
      q := new MetaPtr.Copy(this);
      q.AddAssign(off);
    }

    /** Binary `p - off`: a copy moved back; `this` is left as it is. */
    method Minus(off: PtrDiff) returns (q: MetaPtr)
      requires layout.Valid()
      ensures fresh(q) && q.layout == layout
      ensures q.raw == AfterReset(raw, Difference(Get(), layout.Offset(off)), layout.align)
      ensures q.Get() == Difference(Get(), layout.Offset(off)) && q.Read() == Read()
    {
      q := new MetaPtr.Copy(this);
      q.SubAssign(off);
    }

    // -- bulk metadata --

    /** `write(v)`: the address stays and the metadata becomes the low
        `meta_bits` bits of `v`, the higher ones discarded: the value below
        `alignof(T)` that differs from `v` by a multiple of `alignof(T)`. */
    method Write(v: Word)
      requires layout.Valid()
      modifies this
      ensures raw == AfterWrite(old(raw), v, layout.align)
      ensures Get() == old(Get()) && Read() == Tag(v, layout.align)
      ensures Read() < layout.align && IsAligned(Difference(v, Read()), layout.align)
    {
      WriteAddressLaw(raw, v, layout.align);
      WriteTagLaw(raw, v, layout.align);
      TagRemainderLaw(v, layout.align);
      raw := WithBits(WithoutBits(raw, TagMask(layout.align)), Masked(v, TagMask(layout.align)));
    }

    /** `set()`: every metadata bit becomes 1, the address stays. */
    method Set()
      requires layout.Valid()
      modifies this
      ensures raw == AfterSet(old(raw), layout.align)
      ensures Get() == old(Get()) && Read() == TagMask(layout.align)
    {
      SetAddressLaw(raw, layout.align);
      SetTagLaw(raw, layout.align);
      raw := WithBits(raw, TagMask(layout.align));
    }

    /** `clear()`: every metadata bit becomes 0, the address stays. */
    method Clear()
      requires layout.Valid()
      modifies this
      ensures raw == AfterClear(old(raw), layout.align)
      ensures Get() == old(Get()) && Read() == 0
    {
      ClearAddressLaw(raw, layout.align);
      ClearTagLaw(raw, layout.align);
      raw := WithoutBits(raw, TagMask(layout.align));
    }

    /** `flip()`: every metadata bit is complemented, the address stays; the
        new metadata is `alignof(T) - 1` minus the old. */
    method Flip()
      requires layout.Valid()
      modifies this
      ensures raw == AfterFlip(old(raw), layout.align)
      ensures Get() == old(Get())
      ensures Read() == Toggled(old(Read()), TagMask(layout.align))
      ensures Read() == Difference(TagMask(layout.align), old(Read()))
    {
      FlipAddressLaw(raw, layout.align);
      FlipTagLaw(raw, layout.align);
      FlipComplementLaw(raw, layout.align);
      raw := Toggled(raw, TagMask(layout.align));
    }

    // -- single metadata bits --

    /** `set<pos>()`: bit `pos` of the metadata becomes 1; every other bit
        and the address stay. */
    method SetBit(pos: Word)
      requires layout.Valid() && pos < layout.MetaBits()
      modifies this
      ensures raw == AfterSetBit(old(raw), pos)
      ensures Get() == old(Get()) && Read() == WithBits(old(Read()), Bit(pos))
      ensures forall q :: q < 64 ==> (BitOf(raw, q) <==> q == pos || BitOf(old(raw), q))
    {
      var k, w := layout.MetaBits(), raw;
      raw := AfterSetBit(w, pos);
      SetBitAddressLaw(w, pos, k, layout.align);
      SetBitTagLaw(w, pos, k, layout.align);
      SetBitReadAllLaw(w, pos);
    }

    /** `clear<pos>()`: bit `pos` of the metadata becomes 0; every other bit
        and the address stay. */
    method ClearBit(pos: Word)
      requires layout.Valid() && pos < layout.MetaBits()
      modifies this
      ensures raw == AfterClearBit(old(raw), pos)
      ensures Get() == old(Get()) && Read() == WithoutBits(old(Read()), Bit(pos))
      ensures forall q :: q < 64 ==> (BitOf(raw, q) <==> q != pos && BitOf(old(raw), q))
    {
      var k, w := layout.MetaBits(), raw;
      raw := AfterClearBit(w, pos);
      ClearBitAddressLaw(w, pos, k, layout.align);
      ClearBitTagLaw(w, pos, k, layout.align);
      ClearBitReadAllLaw(w, pos);
    }

    /** `flip<pos>()`: bit `pos` of the metadata is complemented; every other
        bit and the address stay. */
    method FlipBit(pos: Word)
      requires layout.Valid() && pos < layout.MetaBits()
      modifies this
      ensures raw == AfterFlipBit(old(raw), pos)
      ensures Get() == old(Get()) && Read() == Toggled(old(Read()), Bit(pos))
      ensures forall q :: q < 64 ==> (BitOf(raw, q) <==> (BitOf(old(raw), q) != (q == pos)))
    {
      var k, w := layout.MetaBits(), raw;
      raw := AfterFlipBit(w, pos);
      FlipBitAddressLaw(w, pos, k, layout.align);
      FlipBitTagLaw(w, pos, k, layout.align);
      FlipBitReadAllLaw(w, pos);
    }

    /** `write<pos>(val)`: `set<pos>()` when `val` holds, `clear<pos>()`
        otherwise; bit `pos` then reads `val`. */
    method WriteBit(pos: Word, val: bool)
      requires layout.Valid() && pos < layout.MetaBits()
      modifies this
      ensures raw == if val then AfterSetBit(old(raw), pos) else AfterClearBit(old(raw), pos)
      ensures Get() == old(Get())
      ensures Read() == if val then WithBits(old(Read()), Bit(pos)) else WithoutBits(old(Read()), Bit(pos))
      ensures forall q :: q < 64 ==> (BitOf(raw, q) <==> if q == pos then val else BitOf(old(raw), q))
    {
      if val {
        SetBit(pos);
      } else {
        ClearBit(pos);
      }
    }
  }
}
