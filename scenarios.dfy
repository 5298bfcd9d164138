/**
  The sequences of calls that the repository's test program makes on
  `meta_ptr<int>`, with the facts it asserts after each, as methods on fresh
  objects.  An `int` is 4 bytes with alignment 4, so it leaves two tag bits;
  the addresses `a`, `c` and `d` of the test's local `int`s are parameters,
  non-null and aligned.
 */
module Scenarios {

  import opened RawWord
  import opened MetaPointers

  /** `alignof(int)` and `sizeof(int)`. */
  const IntLayout: Layout := Layout(4, 4)

  /** An address a local `int` can have. */
  predicate IsIntAddress(p: Word) {
    p != 0 && IsAligned(p, 4)
  }

  /** Default construction, construction from a pointer and copying: null
      pointers with zero tags are equal, and so are a pointer and its
      copy. */
  method ConstructionScenario(c: Word) returns (ma: MetaPtr, mc: MetaPtr, md: MetaPtr)
    requires IsIntAddress(c)
    ensures ma.layout == IntLayout && mc.layout == IntLayout && md.layout == IntLayout
    ensures ma.Get() == 0 && ma.IsNull() && !ma.IsNonNull() && ma.Read() == 0
    ensures mc.Get() == c && md.Get() == c && mc.IsNonNull() && md.IsNonNull()
    ensures mc.Read() == 0 && md.Read() == 0
    ensures mc.Equals(md) && !mc.NotEquals(md)
  {
    assert IntLayout.Valid();
    ma := new MetaPtr(IntLayout);
    var mb := new MetaPtr(IntLayout);
    assert mb.Get() == 0 && mb.IsNull() && !mb.IsNonNull() && mb.Read() == 0;
    assert ma.Equals(mb) && !ma.NotEquals(mb);
    var r := MetaPtr.FromPointer(IntLayout, c);
    mc := r.value;
    md := new MetaPtr.Copy(mc);
  }

  /** Tags written apart make two pointers to the same `int` unequal, and
      both `operator=` and `reset` move the address and keep the tag. */
  method ReassignScenario(c: Word, d: Word) returns (mc: MetaPtr, md: MetaPtr)
    requires IsIntAddress(c) && IsIntAddress(d)
    ensures mc.layout == IntLayout && md.layout == IntLayout
    ensures mc.Read() == 2 && md.Read() == 3
    ensures mc.Get() == d && md.Get() == d
    ensures mc.NotEquals(md) && !mc.Equals(md)
  {
    assert IntLayout.Valid();
    var r := MetaPtr.FromPointer(IntLayout, c);
    mc := r.value;
    md := new MetaPtr.Copy(mc);
    mc.Write(2);
    md.Write(3);
    assert mc.Get() == c && md.Get() == c;
    assert mc.Read() == 2 && md.Read() == 3;
    assert mc.NotEquals(md) && !mc.Equals(md);
    var o1 := mc.AssignPointer(d);
    var o2 := md.Reset(d);
  }

  /** Copy assignment takes address and tag; `clear` zeroes the tag and
      `reset_clear` replaces both, so equal tags on different objects still
      compare unequal. */
  method CopyScenario(a: Word, d: Word) returns (ma: MetaPtr, mb: MetaPtr)
    requires IsIntAddress(a) && IsIntAddress(d) && a != d
    ensures ma.layout == IntLayout && mb.layout == IntLayout
    ensures ma.Get() == d && ma.Read() == 0 && mb.Get() == a && mb.Read() == 0
    ensures ma.NotEquals(mb)
  {
    assert IntLayout.Valid();
    var r := MetaPtr.FromPointer(IntLayout, d);
    var mc := r.value;
    var md := new MetaPtr.Copy(mc);
    mc.Write(2);
    md.Write(3);
    ma := new MetaPtr(IntLayout);
    mb := new MetaPtr(IntLayout);
    ma.Assign(mc);
    mb.Assign(md);
    assert ma.Get() == mb.Get() && ma.Read() == 2 && mb.Read() == 3;
    assert ma.Equals(mc) && mb.Equals(md) && ma.NotEquals(mb);
    ma.Clear();
    assert ma.Read() == 0 && ma.Get() == d;
    assert mb.Read() != 0 && mb.Get() != a;
    var o := mb.ResetClear(a);
  }

  /** Setting and clearing the two tag bits one at a time. */
  method BitScenario(d: Word) returns (ma: MetaPtr)
    requires IsIntAddress(d)
    ensures ma.layout == IntLayout && ma.Get() == d && ma.Read() == 0
  {
    assert IntLayout.Valid() && IntLayout.MetaBits() == 2;
    var r := MetaPtr.FromPointer(IntLayout, d);
    ma := r.value;
    ma.SetBit(1);
    assert !ma.ReadBit(0) && ma.ReadBit(1) && ma.Read() == 2;
    ma.SetBit(0);
    assert ma.ReadBit(0) && ma.ReadBit(1) && ma.Read() == 3;
    ma.ClearBit(1);
    assert ma.ReadBit(0) && !ma.ReadBit(1) && ma.Read() == 1;
    ma.ClearBit(0);
    assert !ma.ReadBit(0) && !ma.ReadBit(1);
  }

  /** `reset(c)` moves a pointer with tag 1 to `c` and keeps the tag;
      `write(0x125fe)` keeps only the low two bits, 2; then single-bit writes,
      single-bit flips and the bulk `set` and `flip`, none of which moves
      the address. */
  method TagScenario(a: Word, c: Word, d: Word) returns (mb: MetaPtr)
    requires IsIntAddress(a) && IsIntAddress(c) && IsIntAddress(d)
    ensures mb.layout == IntLayout && mb.Get() == c && mb.Read() == 2
    ensures mb.EqualsPointer(c)
  {
    assert IntLayout.Valid() && IntLayout.MetaBits() == 2;
    var r := MetaPtr.FromPointer(IntLayout, a);
    mb := r.value;
    r := MetaPtr.FromPointer(IntLayout, d);
    var mc := r.value;
    mb.Write(1);
    mc.Write(2);
    var o := mb.Reset(c);
    assert mb.Get() == c && mb.Read() == 1;
    assert mb.NotEquals(mc);
    mb.Write(0x125fe);
    assert mb.Get() == c && mb.Read() == 2;
    mb.WriteBit(0, true);
    assert mb.Get() == c && mb.Read() == 3;
    mb.WriteBit(1, false);
    assert mb.Get() == c && mb.Read() == 1;
    mb.WriteBit(1, true);
    assert mb.Get() == c && mb.Read() == 3;
    mb.WriteBit(0, false);
    assert mb.Get() == c && mb.Read() == 2;
    mb.FlipBit(0);
    assert mb.Get() == c && mb.Read() == 3;
    mb.FlipBit(0);
    assert mb.Get() == c && mb.Read() == 2;
    mb.Set();
    assert mb.Get() == c && mb.Read() == 3;
    mb.Flip();
    assert mb.Get() == c && mb.Read() == 0;
    mb.SetBit(1);
    mb.Flip();
    assert mb.Get() == c && mb.Read() == 1;
    mb.Flip();
  }

  /** Increments and decrements in both forms move by one `int`, four
      bytes, and the postfix forms hand back the prior state. */
  method StepScenario(c: Word) returns (mb: MetaPtr)
    requires IsIntAddress(c)
    ensures mb.layout == IntLayout && mb.Get() == c && mb.Read() == 2
  {
    assert IntLayout.Valid();
    var r := MetaPtr.FromPointer(IntLayout, c);
    mb := r.value;
    mb.Write(2);
    var prior := mb.PostIncrement();
    assert prior.Get() == c && mb.EqualsPointer(Sum(c, 4));
    MoveBackLaw(c, 4);
    prior := mb.PostDecrement();
    assert prior.Get() == Sum(c, 4) && mb.EqualsPointer(c);
    mb.Increment();
    assert mb.EqualsPointer(Sum(c, 4));
    mb.Decrement();
  }

  /** The offsets the test program uses, as bit patterns. */
  lemma SmallOffsetsLaw()
    ensures TwosComplement(10) == 10 && TwosComplement(20) == 20
    ensures TwosComplement(-10) == 0 - 10
  {
  }

  /** Twenty elements are ten elements twice, for every element size. */
  lemma DoubleOffsetLaw(L: Layout)
    ensures Sum(L.Offset(10), L.Offset(10)) == L.Offset(20)
  {
    SmallOffsetsLaw();
    ScaledDoublingLaw(10, L.size);
  }

  /** Minus ten elements is the negation of ten elements. */
  lemma NegatedOffsetLaw(L: Layout)
    ensures L.Offset(-10) == Difference(0, L.Offset(10))
  {
    SmallOffsetsLaw();
    ScaledNegationLaw(10, L.size);
  }

  /** `+= 10; -= 20; += 10` comes back to the start, whatever the state and
      whatever the element type. */
  method ShiftRoundTrip(m: MetaPtr)
    requires m.layout.Valid()
    modifies m
    ensures m.raw == old(m.raw)
  {
    var x, y := m.layout.Offset(10), m.layout.Offset(20);
    DoubleOffsetLaw(m.layout);
    var g := m.Get();
    m.AddAssign(10);
    m.SubAssign(20);
    m.AddAssign(10);
    ThereAndBackLaw(g, x, y);
    SamePartsLaw(m.raw, old(m.raw), m.layout.align);
  }

  /** The by-value `+` and `-` with positive and negative offsets, alone and
      chained: each gives a moved copy and leaves the operand where it
      was. */
  method CopyArithmeticScenario(c: Word) returns (mb: MetaPtr)
    requires IsIntAddress(c)
    ensures mb.layout == IntLayout && mb.Get() == c
  {
    assert IntLayout.Valid();
    var x, y := IntLayout.Offset(10), IntLayout.Offset(-10);
    NegatedOffsetLaw(IntLayout);
    NegatedMoveUpLaw(c, x, y);
    NegatedMoveDownLaw(c, x, y);
    MoveBackLaw(c, x);
    var r := MetaPtr.FromPointer(IntLayout, c);
    mb := r.value;
    var q := mb.Plus(10);
    assert q.EqualsPointer(Sum(c, x)) && mb.EqualsPointer(c);
    var q2 := q.Minus(10);
    assert q2.EqualsPointer(c) && mb.EqualsPointer(c);
    q := mb.Minus(10);
    assert q.EqualsPointer(Difference(c, x)) && mb.EqualsPointer(c);
    q := mb.Plus(-10);
    assert q.EqualsPointer(Difference(c, x)) && mb.EqualsPointer(c);
    q2 := q.Plus(10);
    assert q2.EqualsPointer(c) && mb.EqualsPointer(c);
    q := mb.Minus(-10);
    assert q.EqualsPointer(Sum(c, x)) && mb.EqualsPointer(c);
  }
}
