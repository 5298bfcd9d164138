# meta_ptr in Dafny

`meta_ptr<T>` is a tagged pointer. It is a pointer to `T` stored in one
machine word, `raw`. The bits that the alignment of `T` forces to zero hold
the caller's metadata, the tag. When `alignof(T)` is `2^k`, the low
`k = meta_bits` bits of `raw` are the tag, and the remaining bits are the
address with the tag stripped.

The model has three modules:

- `RawWord` (`raw_word.dfy`) has the platform facts and the word-level
  operations.
  - The platform facts are `Word = bv64` (a 64-bit `std::uintptr_t`),
    `PtrDiff` (a 64-bit `std::ptrdiff_t`) and `Layout(align, size)`
    (`alignof(T)` and `sizeof(T)`). A valid layout has a power-of-two
    alignment and a size that is a positive multiple of it.
  - `CtimeLog2` is `ctime_log2`. `Layout.MetaBits` is `meta_bits`.
  - There is one pure function per operation: what `get()` and `read()`
    return, and what `raw` becomes after `reset`, `write`, `set`, `clear`,
    `flip` and the per-bit forms.
  - The laws say what each operation does to the address and to the tag.
    The bit-level steps (`Masked`, `WithBits`, `WithoutBits`, `Toggled`,
    `Scaled`, `Sum`, `Difference`) are named functions. Their laws state
    one step at a time, over plain words.
- `MetaPointers` (`meta_ptr.dfy`) has the class `MetaPtr`.
  - Its fields are `const layout: Layout` and `var raw: Word`.
  - Queries are functions that read `this`. State changes are methods with
    `modifies this`. Each method states its new `raw` as the `RawWord`
    function of the old one, and what that means for `Get()` and `Read()`.
  - The `std::invalid_argument` thrown by `reset` and `reset_clear` is an
    `Outcome` (`Pass` or `Fail(InvalidArgument("ptr was not aligned"))`).
    For construction from a pointer it is a `Result`.
- `Scenarios` (`scenarios.dfy`) holds the call sequences of the test
  program on `meta_ptr<int>` (`Layout(4, 4)`), each with the facts the test
  asserts.

Every word splits into an aligned address and a tag below the alignment,
and the two add up to the word (`RawWord.DecomposesAlways`). This holds for
every `raw`, so the class needs no invariant for it: it is a lemma, and the
contracts of `Get` and `Read` state it.

Pointers are their integer addresses. Address arithmetic wraps modulo
2^64, as `std::uintptr_t` arithmetic does.

## Model

| member | source | states |
|---|---|---|
| RawWord.CtimeLog2 | meta_ptr.h:23 | the result is below 64 and is 0 for inputs up to 1; for any non-zero `v`, `2^r <= v < 2^(r+1)` (the floor of the base-2 logarithm) |
| RawWord.CtimeLog2OfPow2 | meta_ptr.h:23 | `ctime_log2(2^k) == k` for every `k < 64` |
| RawWord.Pow2OfCtimeLog2 | test.cpp:9 | `1 << ctime_log2(v) == v` for every power of two `v`, the law `align_check` tests |
| RawWord.Layout.MetaBits | meta_ptr.h:103 | for a valid layout, `meta_bits` is below 64 and `1 << meta_bits == alignof(T)` |
| RawWord.TwosComplement | meta_ptr.h:88-91 | definition, no contract: the 64-bit pattern of a `std::ptrdiff_t` offset, the offset itself when non-negative and `2^64 + off` otherwise |
| RawWord.Layout.Offset | meta_ptr.h:88-91 | definition, no contract: the byte distance `off * sizeof(T)` that `get() + off` adds, modulo 2^64; `OffsetAlignedLaw` states that it is aligned |
| RawWord.IsAligned | meta_ptr.h:59 | definition, no contract: the guard of `reset` (and of `reset_clear`, meta_ptr.h:70), `ptr & (alignof(T) - 1) == 0` |
| RawWord.Address | meta_ptr.h:51 | definition, no contract: what `get()` returns, `raw & ~(alignof(T) - 1)`; `DecomposesAlways` and the `...AddressLaw` rows state its properties |
| RawWord.Tag | meta_ptr.h:110 | definition, no contract: what `read()` returns, `raw & (alignof(T) - 1)`; `DecomposesAlways` and the `...TagLaw` rows state its properties |
| RawWord.BitOf | meta_ptr.h:142 | definition, no contract: what `read<pos>()` returns, whether `raw & (1 << pos)` is non-zero; `BitOfTagLaw` ties it to the tag |
| RawWord.AfterReset | meta_ptr.h:62 | definition, no contract: the new `raw` of `reset(ptr)`, `ptr` or-ed with `read()`; `ResetAddressLaw` and `ResetTagLaw` state what it means |
| RawWord.AfterWrite | meta_ptr.h:117 | definition, no contract: the new `raw` of `write(v)`, `get()` or-ed with `v & (alignof(T) - 1)`; `WriteAddressLaw` and `WriteTagLaw` state what it means |
| RawWord.AfterSet | meta_ptr.h:123 | definition, no contract: the new `raw` of `set()`, `raw` or-ed with `alignof(T) - 1`; `SetAddressLaw` and `SetTagLaw` state what it means |
| RawWord.AfterClear | meta_ptr.h:128 | definition, no contract: the new `raw` of `clear()`, `raw & ~(alignof(T) - 1)`; `ClearAddressLaw` and `ClearTagLaw` state what it means |
| RawWord.AfterFlip | meta_ptr.h:133 | definition, no contract: the new `raw` of `flip()`, `raw ^ (alignof(T) - 1)`; `FlipAddressLaw`, `FlipTagLaw` and `FlipTwiceLaw` state what it means |
| RawWord.AfterSetBit | meta_ptr.h:155 | definition, no contract: the new `raw` of `set<pos>()`, `raw` or-ed with `1 << pos`; `SetBitAddressLaw`, `SetBitTagLaw` and `SetBitReadLaw` state what it means |
| RawWord.AfterClearBit | meta_ptr.h:161 | definition, no contract: the new `raw` of `clear<pos>()`, `raw & ~(1 << pos)`; `ClearBitAddressLaw`, `ClearBitTagLaw` and `ClearBitReadLaw` state what it means |
| RawWord.AfterFlipBit | meta_ptr.h:167 | definition, no contract: the new `raw` of `flip<pos>()`, `raw ^ (1 << pos)`; `FlipBitAddressLaw`, `FlipBitTagLaw` and `FlipBitReadLaw` state what it means |
| RawWord.DecomposesAlways | meta_ptr.h:49-52 | for every word: the address is aligned, the tag is below `alignof(T)`, the two share no bit, and their sum is the word |
| RawWord.SamePartsLaw | meta_ptr.h:172-173 | two words with the same address and the same tag are the same word |
| RawWord.NonNullLaw | meta_ptr.h:36-39 | the address is non-null exactly when the word is at least `alignof(T)`, so no tag makes a null pointer non-null |
| RawWord.TagRemainderLaw | meta_ptr.h:112-118 | a word minus its tag is aligned; together with the tag being below `alignof(T)`, the tag is the word modulo `alignof(T)` |
| RawWord.ResetAddressLaw | meta_ptr.h:57-63 | after `reset(p)` with `p` aligned, the address is `p` |
| RawWord.ResetTagLaw | meta_ptr.h:57-63 | after `reset(p)` with `p` aligned, the tag is the old tag |
| RawWord.AlignedWordLaw | meta_ptr.h:68-74 | an aligned `p` stored as the whole word has address `p` and tag 0 |
| RawWord.WriteAddressLaw | meta_ptr.h:115-118 | `write(v)` keeps the address |
| RawWord.WriteTagLaw | meta_ptr.h:115-118 | after `write(v)`, the tag is `v`'s own low bits; the high bits of `v` are discarded |
| RawWord.SetAddressLaw | meta_ptr.h:121-124 | `set()` keeps the address |
| RawWord.SetTagLaw | meta_ptr.h:121-124 | after `set()`, the tag is `alignof(T) - 1`, all ones |
| RawWord.ClearAddressLaw | meta_ptr.h:126-129 | `clear()` keeps the address |
| RawWord.ClearTagLaw | meta_ptr.h:126-129 | after `clear()`, the tag is 0 |
| RawWord.FlipAddressLaw | meta_ptr.h:131-134 | `flip()` keeps the address |
| RawWord.FlipTagLaw | meta_ptr.h:131-134 | after `flip()`, the tag is the old tag xor `alignof(T) - 1` |
| RawWord.FlipComplementLaw | meta_ptr.h:131-134 | that flipped tag is `alignof(T) - 1` minus the old tag |
| RawWord.FlipTwiceLaw | meta_ptr.h:131-134 | `flip()` twice gives back the original word |
| RawWord.BitOfTagLaw | meta_ptr.h:138-143 | for `pos < meta_bits`, `read<pos>()` is bit `pos` of `read()` |
| RawWord.SetBitAddressLaw | meta_ptr.h:151-156 | for `pos < meta_bits`, `set<pos>()` keeps the address |
| RawWord.SetBitTagLaw | meta_ptr.h:151-156 | for `pos < meta_bits`, `set<pos>()` sets bit `pos` of the tag and no other |
| RawWord.ClearBitAddressLaw | meta_ptr.h:157-162 | for `pos < meta_bits`, `clear<pos>()` keeps the address |
| RawWord.ClearBitTagLaw | meta_ptr.h:157-162 | for `pos < meta_bits`, `clear<pos>()` clears bit `pos` of the tag and no other |
| RawWord.FlipBitAddressLaw | meta_ptr.h:163-168 | for `pos < meta_bits`, `flip<pos>()` keeps the address |
| RawWord.FlipBitTagLaw | meta_ptr.h:163-168 | for `pos < meta_bits`, `flip<pos>()` flips bit `pos` of the tag and no other |
| RawWord.SetBitReadLaw | meta_ptr.h:151-156 | after `set<pos>()`, bit `q` is set exactly when `q == pos` or it was set before |
| RawWord.ClearBitReadLaw | meta_ptr.h:157-162 | after `clear<pos>()`, bit `q` is set exactly when `q != pos` and it was set before |
| RawWord.FlipBitReadLaw | meta_ptr.h:163-168 | after `flip<pos>()`, bit `q` differs from before exactly when `q == pos` |
| RawWord.SetBitReadAllLaw | meta_ptr.h:151-156 | the bit-by-bit reading of `set<pos>()`, for all 64 bits at once |
| RawWord.ClearBitReadAllLaw | meta_ptr.h:157-162 | the bit-by-bit reading of `clear<pos>()`, for all 64 bits at once |
| RawWord.FlipBitReadAllLaw | meta_ptr.h:163-168 | the bit-by-bit reading of `flip<pos>()`, for all 64 bits at once |
| RawWord.AddressIsLaw | meta_ptr.h:177-182 | the address is `r` exactly when `r` is aligned and `reset(r)` would leave the word unchanged |
| RawWord.OffsetAlignedLaw | meta_ptr.h:88-91 | `off * sizeof(T)` is aligned for every offset, even after wrap-around |
| RawWord.MoveUpAlignedLaw | meta_ptr.h:89 | an aligned address moved forward by any offset stays aligned, so the `reset` in `+=` and `++` cannot throw |
| RawWord.MoveDownAlignedLaw | meta_ptr.h:91 | the same when moving back, for `-=` and `--` |
| RawWord.MoveBackLaw | meta_ptr.h:88-91 | moving by a distance and back, in either order, gives back the address |
| RawWord.ThereAndBackLaw | meta_ptr.h:88-91 | moving forward by `x`, back by `x + x` and forward by `x` again gives back the address, modulo 2^64 |
| RawWord.NegatedMoveUpLaw | meta_ptr.h:88-89 | moving forward by the negation of `x` is moving back by `x` |
| RawWord.NegatedMoveDownLaw | meta_ptr.h:90-91 | moving back by the negation of `x` is moving forward by `x` |
| RawWord.ScaledDoublingLaw | meta_ptr.h:88-91 | the byte distance of `t + t` elements is twice that of `t` elements, modulo 2^64, for every element size |
| RawWord.ScaledNegationLaw | meta_ptr.h:88-91 | the byte distance of `-t` elements is the negation of that of `t` elements, modulo 2^64 |
| RawWord.UnitOffsetLaw | meta_ptr.h:80-86 | an offset of one element is `sizeof(T)` bytes, so `++`/`--` are `+= 1`/`-= 1` |
| MetaPointers.MetaPtr.Get | meta_ptr.h:48-52 | `get()` is aligned |
| MetaPointers.MetaPtr.Read | meta_ptr.h:105-111 | `read()` is below `alignof(T)` (the high bits are zero), shares no bit with `get()`, and `get() + read() == raw` |
| MetaPointers.MetaPtr.ReadBit | meta_ptr.h:138-143 | `read<pos>()` is bit `pos` of `read()` |
| MetaPointers.MetaPtr.IsNonNull | meta_ptr.h:36-37 | `operator bool` holds exactly when `raw >= alignof(T)`, whatever the tag |
| MetaPointers.MetaPtr.IsNull | meta_ptr.h:38-39 | `operator!` holds exactly when `raw < alignof(T)`, whatever the tag |
| MetaPointers.MetaPtr.Equals | meta_ptr.h:172-173 | `==` of two `meta_ptr`s holds exactly when both the addresses and the tags agree |
| MetaPointers.MetaPtr.NotEquals | meta_ptr.h:174-175 | `!=` holds exactly when the addresses or the tags differ |
| MetaPointers.MetaPtr.EqualsPointer | meta_ptr.h:177-179 | `m == r` and `r == m` hold exactly when `r` is aligned and `reset(r)` would not change `raw`; the tag does not matter |
| MetaPointers.MetaPtr.NotEqualsPointer | meta_ptr.h:180-182 | `m != r` and `r != m` are the negation of that |
| MetaPointers.MetaPtr.constructor | meta_ptr.h:27-28 | `meta_ptr()` gives `raw == 0`: a null address with tag 0 |
| MetaPointers.MetaPtr.FromPointer | meta_ptr.h:27-28 | `meta_ptr(ptr)` succeeds exactly when `ptr` is aligned, otherwise the error is `invalid_argument("ptr was not aligned")`; on success a new object has `raw == ptr`, `get() == ptr` and `read() == 0` |
| MetaPointers.MetaPtr.Copy | meta_ptr.h:41-42 | the copy constructor copies `raw`, so both the address and the tag |
| MetaPointers.MetaPtr.Assign | meta_ptr.h:43-44 | copy assignment takes the other's `raw`, so both the address and the tag |
| MetaPointers.MetaPtr.Reset | meta_ptr.h:54-63 | fails exactly when `ptr` is unaligned, and then `raw` is unchanged; otherwise `raw` is `ptr` with the old tag: `get() == ptr` and `read()` is as before |
| MetaPointers.MetaPtr.ResetClear | meta_ptr.h:65-74 | fails exactly when `ptr` is unaligned, and then `raw` is unchanged; otherwise `raw == ptr`: `get() == ptr` and `read() == 0` |
| MetaPointers.MetaPtr.AssignPointer | meta_ptr.h:30-31 | `operator=(ptr)` has exactly the contract of `reset(ptr)` |
| MetaPointers.MetaPtr.Increment | meta_ptr.h:80-81 | prefix `++` moves `get()` forward by `sizeof(T)` modulo 2^64, keeps the tag, and never fails |
| MetaPointers.MetaPtr.PostIncrement | meta_ptr.h:82 | postfix `++` does the same and returns a new copy holding the prior `raw` |
| MetaPointers.MetaPtr.Decrement | meta_ptr.h:84-85 | prefix `--` moves `get()` back by `sizeof(T)` modulo 2^64, keeps the tag, and never fails |
| MetaPointers.MetaPtr.PostDecrement | meta_ptr.h:86 | postfix `--` does the same and returns a new copy holding the prior `raw` |
| MetaPointers.MetaPtr.AddAssign | meta_ptr.h:88-89 | `+= off` moves `get()` forward by `off * sizeof(T)` modulo 2^64, keeps the tag, and never fails |
| MetaPointers.MetaPtr.SubAssign | meta_ptr.h:90-91 | `-= off` moves `get()` back by `off * sizeof(T)` modulo 2^64, keeps the tag, and never fails |
| MetaPointers.MetaPtr.Plus | meta_ptr.h:93-95 | `p + off` and `off + p` return a new object moved forward, with the same tag, and leave `p` untouched |
| MetaPointers.MetaPtr.Minus | meta_ptr.h:97-98 | `p - off` returns a new object moved back, with the same tag, and leaves `p` untouched |
| MetaPointers.MetaPtr.Write | meta_ptr.h:112-118 | `write(v)` keeps `get()`, and `read()` becomes the low bits of `v`: below `alignof(T)` and a multiple of `alignof(T)` away from `v` |
| MetaPointers.MetaPtr.Set | meta_ptr.h:120-124 | `set()` keeps `get()`, and `read()` becomes `alignof(T) - 1` |
| MetaPointers.MetaPtr.Clear | meta_ptr.h:125-129 | `clear()` keeps `get()`, and `read()` becomes 0 |
| MetaPointers.MetaPtr.Flip | meta_ptr.h:130-134 | `flip()` keeps `get()`, and `read()` becomes the old tag xor `alignof(T) - 1`, which is `alignof(T) - 1` minus the old tag |
| MetaPointers.MetaPtr.SetBit | meta_ptr.h:151-156 | `set<pos>()` keeps `get()`, sets bit `pos` of `read()`, and leaves every other bit as it was |
| MetaPointers.MetaPtr.ClearBit | meta_ptr.h:157-162 | `clear<pos>()` keeps `get()`, clears bit `pos` of `read()`, and leaves every other bit as it was |
| MetaPointers.MetaPtr.FlipBit | meta_ptr.h:163-168 | `flip<pos>()` keeps `get()`, flips bit `pos` of `read()`, and leaves every other bit as it was |
| MetaPointers.MetaPtr.WriteBit | meta_ptr.h:144-149 | `write<pos>(val)` makes `raw` what `set<pos>()` makes it when `val` holds, and what `clear<pos>()` makes it otherwise; bit `pos` then reads `val` and the other bits are unchanged |
| Scenarios.ConstructionScenario | test.cpp:30-44 | both default-constructed pointers, `ma` and `mb`, are null, false in `bool`, have tag 0 and compare equal; a pointer built from `c` and its copy both have address `c`, are true in `bool`, have tag 0, and compare equal |
| Scenarios.ReassignScenario | test.cpp:46-56 | after writing tags 2 and 3, two pointers to `c` differ; `= d` and `reset(d)` move both to `d` and keep the tags |
| Scenarios.CopyScenario | test.cpp:58-79 | copy assignment copies address and tag; `clear()` zeroes the tag and keeps the address; before `reset_clear(a)` the tag is non-zero and the address is not `a`, after it they are 0 and `a`; equal tags on different addresses compare unequal |
| Scenarios.BitScenario | test.cpp:81-96 | `set<1>`, `set<0>`, `clear<1>`, `clear<0>` step the tag through 2, 3, 1, 0, with matching `read<pos>()` |
| Scenarios.TagScenario | test.cpp:98-142 | `reset(c)` moves a pointer with tag 1 to `c` and keeps tag 1, and it then differs from a pointer with tag 2; `write(0x125fe)` gives tag 2; the following single-bit writes and flips, and the bulk `set` and `flip`, step the tag through 3, 1, 3, 2, 3, 2, 3, 0, 1, 2; the address stays `c` throughout |
| Scenarios.StepScenario | test.cpp:144-158 | postfix forms return the prior address; every step moves by one `int` (4 bytes) and keeps the tag |
| Scenarios.ShiftRoundTrip | test.cpp:160-167 | `+= 10; -= 20; += 10` gives back the original `raw`, for every element type and every starting state |
| Scenarios.CopyArithmeticScenario | test.cpp:169-176 | `mb + 10`, `mb - 10`, `mb + -10` and `mb - -10` compare equal to `c + 10`, `c - 10`, `c - 10` and `c + 10`; the chains `10 + mb - 10` and `-10 + mb + 10` compare equal to `c`; `mb` stays at `c` |

## Left out

- Dereference: `operator*`, `operator->` and `operator[]` (meta_ptr.h:76-78) access the pointed-to memory, which is outside the model. `operator[]` (meta_ptr.h:78) also has no `return` statement. Calling it is undefined behaviour in C++, so it has no behaviour to model.
- `operator T*` (meta_ptr.h:34) returns `get()`. It is covered by `MetaPointers.MetaPtr.Get`.
- Real `alignof` and `sizeof` values: the `align_check` instantiations in test.cpp:13-25 depend on the compiler and platform. The model takes them as a `Layout` parameter with the power-of-two and multiple-of-alignment facts. What `align_check` tests is `RawWord.Pow2OfCtimeLog2`.
- The template parameter `pos` of the per-bit accessors is an ordinary argument. The `enable_if` guard becomes the precondition `pos < meta_bits`.
- Exceptions and `std::terminate`: `std::invalid_argument` is the `Outcome`/`Result` error value. `++`, `--`, `+=` and `-=` are proved never to reach the failing branch of `reset`. The program-terminating path of a `noexcept` throw therefore cannot occur.
- Pointer arithmetic that leaves the pointed-to object is undefined behaviour in C++. The model computes addresses modulo 2^64 instead. A cast `(std::uintptr_t)ptr` is the identity on the address.
- The two binary `+` overloads (meta_ptr.h:94-95) share one method, `Plus`. The two operand orders of `==` and `!=` with a raw pointer (meta_ptr.h:178-182) share `EqualsPointer` and `NotEqualsPointer`. Each pair has identical bodies.
- `meta_ptr(T *ptr = nullptr)` is two members: the constructor for the default argument and `FromPointer` for an explicit pointer. A constructor cannot fail, and the explicit form can.
- MetaPointers.MetaPtr.Write: "`read()` is `v % alignof(T)`" is stated as "`read() < alignof(T)` and `v - read()` is aligned", which determines the same value. The direct statement `Tag(v, a) == v % a` does not verify within a resource limit of 2,000,000 (`--resource-limit 2000000`). The concrete case `write(0x125fe)` giving 2 is proved in `Scenarios.TagScenario`.
- RawWord.TwosComplement, the bit pattern of a `std::ptrdiff_t`, has no contract relating it to the integer value of the offset. Each offset used concretely is evaluated where it is used.
- `std::uintptr_t`, `std::size_t` and `std::ptrdiff_t` are fixed at 64 bits. The model does not cover platforms with other widths.
- The `meta_ptr &` that `operator=`, prefix `++` and `--`, `+=` and `-=` return (meta_ptr.h:31, 81, 85, 89, 91) is `*this`. The methods change the object and return nothing, so a chained use such as `(mb += 10) == c + 10` (test.cpp:160-166) is the method call followed by a query on the same object.
- The default argument `nullptr` of `reset` and `reset_clear` (meta_ptr.h:57, 68) is not a separate member. `Reset(0)` and `ResetClear(0)` are the calls without an argument; 0 is aligned, so those calls always pass.
- Ordering comparisons: the class has none.
- The stream output, `std::cin.get()` and the `const char` instantiation at the end of the test program (test.cpp:178-190) are I/O and are not modelled.
