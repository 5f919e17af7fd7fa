/**
 * The allocators of `c-impl/include/stx/stx/mem.h`: the power-of-two test,
 * forward alignment, the arena (bump) allocator and the pool (free-list)
 * allocator.
 *
 * Addresses and sizes are naturals below 2^64 (`size_t` and `long` on a
 * 64-bit target, the latter only in its non-negative range); where the C
 * arithmetic wraps it is written modulo 2^64.  The C `&` operator is the
 * recursive `And` below, proved against ordinary arithmetic.  A C
 * `assert(cond)` with no fallback becomes a precondition; an
 * `assert(0 && ...)` followed by a `return` is modelled by that return.
 */
module Mem {

  /** 2^64: the range of `size_t`. */
  const Word: nat := 0x1_0000_0000_0000_0000

  /** 2^63: the non-negative range of `long`. */
  const LongRange: nat := 0x8000_0000_0000_0000

  // ------------------------------------------------------------------
  // Arithmetic used by the proofs
  // ------------------------------------------------------------------

  lemma MulAtLeast(x: int, d: int)
    requires x >= 1 && d > 0
    ensures x * d >= d
  {
  }

  /** Quotient and remainder are determined by any decomposition `n == q * d + r` with `0 <= r < d`. */
  lemma DivUnique(n: int, d: int, q: int, r: int)
    requires d > 0 && 0 <= r < d && n == q * d + r
    ensures n / d == q && n % d == r
  {
    var q', r' := n / d, n % d;
    assert n == q' * d + r';
    assert (q - q') * d == r' - r;
    if q > q' {
      MulAtLeast(q - q', d);
    } else if q < q' {
      MulAtLeast(q' - q, d);
    }
  }

  lemma ModDouble(p: nat, b: nat)
    requires b > 0
    ensures 2 * ((p / 2) % b) + p % 2 == p % (2 * b)
  {
    var h := p / 2;
    var k, r := h / b, h % b;
    assert p == 2 * h + p % 2;
    assert h == k * b + r;
    assert p == k * (2 * b) + (2 * r + p % 2);
    DivUnique(p, 2 * b, k, 2 * r + p % 2);
  }

  // ------------------------------------------------------------------
  // Bits
  // ------------------------------------------------------------------

  /** C's bitwise `&` on non-negative operands, one bit at a time from the bottom. */
  function And(a: nat, b: nat): (r: nat)
    ensures r <= a && r <= b
  {
    if a == 0 || b == 0 then 0
    else 2 * And(a / 2, b / 2) + (if a % 2 == 1 && b % 2 == 1 then 1 else 0)
  }

  /** The powers of two, defined by halving. */
  predicate IsPow2(n: nat)
    decreases n
  {
    n == 1 || (n > 1 && n % 2 == 0 && IsPow2(n / 2))
  }

  /** `x - 1` on a 64-bit word: zero wraps round to all ones. */
  function Pred(x: nat): nat {
    if x == 0 then Word - 1 else x - 1
  }

  /** `is_power_of_two`, the function (mem.h line 14): `(x & (x - 1)) == 0`, which accepts the powers of two and, unlike the macro, zero. */
  predicate IsPowerOfTwoFn(x: nat)
    ensures IsPowerOfTwoFn(x) <==> x == 0 || IsPow2(x)
  {
    PredecessorTest(x);
    And(x, Pred(x)) == 0
  }

  /** `is_power_of_two`, the macro that replaces it from line 96 on: also demands `x != 0`, so it accepts exactly the powers of two. */
  predicate IsPowerOfTwo(x: nat)
    ensures IsPowerOfTwo(x) <==> IsPow2(x)
  {
    PredecessorTest(x);
    x != 0 && And(x, Pred(x)) == 0
  }

  lemma {:induction false} AndSelf(y: nat)
    ensures And(y, y) == y
  {
    if y > 0 {
      AndSelf(y / 2);
    }
  }

  /** For positive `x`, `x & (x - 1)` clears exactly when `x` has a single bit set. */
  lemma {:induction false} AndPredecessor(x: nat)
    requires x > 0
    ensures And(x, x - 1) == 0 <==> IsPow2(x)
  {
    if x == 1 {
    } else if x % 2 == 0 {
      var y := x / 2;
      assert (x - 1) / 2 == y - 1 && (x - 1) % 2 == 1;
      AndPredecessor(y);
      assert And(x, x - 1) == 2 * And(y, y - 1);
    } else {
      var y := x / 2;
      assert (x - 1) / 2 == y && (x - 1) % 2 == 0;
      AndSelf(y);
      assert And(x, x - 1) == 2 * And(y, y);
    }
  }

  /** `x & (x - 1)` on a 64-bit word clears exactly when `x` is zero or a power of two. */
  lemma PredecessorTest(x: nat)
    ensures And(x, Pred(x)) == 0 <==> x == 0 || IsPow2(x)
  {
    if x > 0 {
      AndPredecessor(x);
    }
  }

  /** Masking with `a - 1` keeps the remainder modulo a power of two `a`. */
  lemma {:induction false} AndLowBits(p: nat, a: nat)
    requires IsPow2(a)
    ensures And(p, a - 1) == p % a
  {
    if a == 1 {
      assert And(p, 0) == 0;
    } else if p == 0 {
      assert And(0, a - 1) == 0;
    } else {
      var b := a / 2;
      assert a == 2 * b && IsPow2(b) && b > 0;
      assert a - 1 == 2 * (b - 1) + 1;
      AndOddMask(p, b - 1);
      AndLowBits(p / 2, b);
      ModDouble(p, b);
      assert And(p, a - 1) == 2 * ((p / 2) % b) + p % 2;
      assert p % (2 * b) == p % a;
    }
  }

  /** One step of `And` against a mask whose low bit is set. */
  lemma AndOddMask(p: nat, k: nat)
    requires p > 0
    ensures And(p, 2 * k + 1) == 2 * And(p / 2, k) + p % 2
  {
    var c := 2 * k + 1;
    assert c / 2 == k && c % 2 == 1;
  }

  lemma Pow2Positive(a: nat)
    requires IsPow2(a)
    ensures a > 0
  {
  }

  /** Doubling a power of two gives a power of two. */
  lemma DoubleIsPow2(n: nat)
    requires IsPow2(n)
    ensures IsPow2(2 * n)
  {
    assert (2 * n) / 2 == n;
  }

  /** So does multiplying it by 16, four doublings. */
  lemma Times16IsPow2(n: nat)
    requires IsPow2(n)
    ensures IsPow2(16 * n)
  {
    DoubleIsPow2(n);
    DoubleIsPow2(2 * n);
    DoubleIsPow2(4 * n);
    DoubleIsPow2(8 * n);
  }

  /** And multiplying it by 256. */
  lemma Times256IsPow2(n: nat)
    requires IsPow2(n)
    ensures IsPow2(256 * n)
  {
    Times16IsPow2(n);
    Times16IsPow2(16 * n);
  }

  /** 16, the default alignment, is a power of two. */
  lemma SixteenIsPow2()
    ensures IsPow2(16)
  {
    Times16IsPow2(1);
  }

  /** 2^64 is a power of two, so masking with all ones keeps a 64-bit value. */
  lemma WordIsPow2()
    ensures IsPow2(Word)
  {
    Times256IsPow2(1);
    Times256IsPow2(0x100);
    Times256IsPow2(0x1_0000);
    Times256IsPow2(0x100_0000);
    Times256IsPow2(0x1_0000_0000);
    Times256IsPow2(0x100_0000_0000);
    Times256IsPow2(0x1_0000_0000_0000);
    Times256IsPow2(0x100_0000_0000_0000);
  }

  // ------------------------------------------------------------------
  // Alignment
  // ------------------------------------------------------------------

  /** Reference definition: the least multiple of `a` that is at least `p`. */
  function RoundUp(p: nat, a: nat): nat
    requires a > 0
  {
    ((p + a - 1) / a) * a
  }

  lemma RoundUpValue(p: nat, a: nat)
    requires a > 0
    ensures RoundUp(p, a) == if p % a == 0 then p else p - p % a + a
  {
    var q, m := p / a, p % a;
    if m == 0 {
      DivUnique(p + a - 1, a, q, a - 1);
    } else {
      DivUnique(p + a - 1, a, q + 1, m - 1);
    }
  }

  /** What "aligned forward" means: at least `p`, a multiple of `a`, less than `a` further on, and `p` itself when already aligned. */
  lemma RoundUpIsAlignment(p: nat, a: nat)
    requires a > 0
    ensures RoundUp(p, a) >= p && RoundUp(p, a) - p < a
    ensures RoundUp(p, a) % a == 0
    ensures p % a == 0 ==> RoundUp(p, a) == p
  {
    RoundUpValue(p, a);
    var q, m := p / a, p % a;
    if m != 0 {
      DivUnique(p - m + a, a, q + 1, 0);
    }
  }

  /**
   * The body shared by the three alignment routines:
   * `modulo = p & (a - 1); if (modulo) p += a - modulo;`, in 64-bit arithmetic.
   */
  function AlignStep(ptr: nat, align: nat): (r: nat)
    requires ptr < Word && align < Word
    ensures r < Word
  {
    var modulo := And(ptr, Pred(align));
    if modulo != 0 then (ptr + (align + Word - modulo) % Word) % Word else ptr
  }

  /** For a power-of-two alignment the bit trick computes the reference rounding, modulo 2^64. */
  lemma AlignStepRoundsUp(ptr: nat, align: nat)
    requires ptr < Word && align < Word && IsPow2(align)
    ensures AlignStep(ptr, align) == RoundUp(ptr, align) % Word
  {
    Pow2Positive(align);
    AndLowBits(ptr, align);
    RoundUpValue(ptr, align);
    var m := ptr % align;
    assert And(ptr, Pred(align)) == m;
    if m != 0 {
      SmallMod(align - m);
      assert align + Word - m == (align - m) + Word;
      assert AlignStep(ptr, align) == (ptr + (align - m)) % Word;
      assert RoundUp(ptr, align) == ptr + (align - m);
    } else {
      SmallMod(ptr);
    }
  }

  /** With a zero alignment the bit trick sends every address to 0. */
  lemma AlignStepZero(ptr: nat)
    requires ptr < Word
    ensures AlignStep(ptr, 0) == 0
  {
    WordIsPow2();
    AndLowBits(ptr, Word);
  }

  /**
   * `align_forward_size`: asserts the function form of the power-of-two
   * test, which lets an alignment of 0 through; that alignment yields 0.
   */
  function AlignForwardSize(ptr: nat, align: nat): (r: nat)
    requires ptr < Word && align < Word
    requires IsPowerOfTwoFn(align)
    ensures r < Word
    ensures align == 0 ==> r == 0
    ensures align != 0 ==> IsPow2(align) && r == RoundUp(ptr, align) % Word
  {
    if align == 0 then AlignStepZero(ptr); AlignStep(ptr, align)
    else AlignStepRoundsUp(ptr, align); AlignStep(ptr, align)
  }

  /** `align_forward_uintptr`: the same computation on (non-negative) `long` values. */
  function AlignForwardUintptr(ptr: nat, align: nat): (r: nat)
    requires ptr < LongRange && align < LongRange
    requires IsPowerOfTwoFn(align)
    ensures r < Word
    ensures align == 0 ==> r == 0
    ensures align != 0 ==> IsPow2(align) && r == RoundUp(ptr, align) % Word
  {
    AlignForwardSize(ptr, align)
  }

  /**
   * `align_forward`: checks the alignment with the macro form of the test
   * and returns 0 instead of asserting when it fails.
   */
  function AlignForward(ptr: nat, align: nat): (r: nat)
    requires ptr < Word && align < Word
    ensures !IsPow2(align) ==> r == 0
    ensures IsPow2(align) ==> r == RoundUp(ptr, align) % Word
  {
    if !IsPowerOfTwo(align) then 0
    else AlignStepRoundsUp(ptr, align); AlignStep(ptr, align)
  }

  // ------------------------------------------------------------------
  // Arena allocator
  // ------------------------------------------------------------------

  /** `DEFAULT_ALIGNMENT`: the size of two pointers on a 64-bit target. */
  const DefaultAlignment: nat := 16

  /** An arena over `size` bytes at address `base`; `offset` is the bump cursor. */
  datatype Arena = Arena(base: nat, size: nat, offset: nat, committed: nat)

  /** Every field is a 64-bit value and the buffer lies inside the address space. */
  predicate WellFormed(a: Arena) {
    0 < a.base && a.base + a.size < Word && a.offset < Word && a.committed < Word
  }

  /** The arena invariant: the bump cursor never passes the end of the buffer. */
  predicate Valid(a: Arena) {
    WellFormed(a) && a.offset <= a.size
  }

  /** An allocator answer: the address handed out (0 is NULL) and the allocator afterwards. */
  datatype Alloc<A> = Alloc(ptr: nat, after: A)

  /** `arena_free_all`: forgets every allocation at once. */
  function ArenaFreeAll(a: Arena): (r: Arena)
    ensures r.base == a.base && r.size == a.size
    ensures r.offset == 0 && r.committed == 0
    ensures WellFormed(a) ==> Valid(r)
  {
    a.(offset := 0, committed := 0)
  }

  /** `arena_init`: an arena with nothing allocated, the same state `arena_free_all` returns to. */
  function ArenaInit(buffer: nat, size: nat): (a: Arena)
    requires 0 < buffer && buffer + size < Word
    ensures Valid(a) && a.base == buffer && a.size == size
    ensures ArenaFreeAll(a) == a
  {
    Arena(buffer, size, 0, 0)
  }

  /** `arena_free`: a no-op; individual blocks are never returned to an arena. */
  function ArenaFree(a: Arena, size: nat, ptr: nat): (r: Arena)
    ensures r == a
  {
    a
  }

  /**
   * The offset `arena_alloc_aligned` computes: the absolute cursor address
   * aligned forward, minus the base, in 64-bit arithmetic.
   */
  function CursorOffset(a: Arena, alignment: nat): (o: nat)
    requires WellFormed(a) && alignment < Word
    ensures o < Word
  {
    (AlignForward((a.base + a.offset) % Word, alignment) + Word - a.base) % Word
  }

  /**
   * `arena_alloc_aligned` as written: the cursor is aligned through the
   * absolute address, and the fit test `offset + size > arena->size` is
   * computed in 64-bit unsigned arithmetic, so it can wrap.
   */
  function ArenaAllocAlignedAsWritten(a: Arena, size: nat, alignment: nat): (r: Alloc<Arena>)
    requires WellFormed(a) && size < Word && alignment < Word
    ensures WellFormed(r.after) && r.after.base == a.base && r.after.size == a.size
    ensures r.after.offset <= a.size || r.after == a
  {
    var offset := CursorOffset(a, alignment);
    if (offset + size) % Word > a.size then Alloc(0, a)
    else
      Alloc((a.base + offset) % Word,
            a.(offset := (offset + size) % Word, committed := (a.committed + size) % Word))
  }

  /**
   * A request of nearly 2^64 bytes wraps the fit test and is granted, both
   * through `arena_alloc_aligned` and through `arena_alloc`, moving the
   * cursor backwards.
   */
  lemma ArenaAllocWrapAccepted()
    ensures var a := Arena(4096, 1024, 16, 16);
            var r := ArenaAllocAlignedAsWritten(a, Word - 8, 16);
            && r.ptr == 4096 + 16 && r.after.offset == 8 && r.after.offset < a.offset
            && ArenaAllocAsWritten(a, Word - 8) == r
  {
    var a := Arena(4096, 1024, 16, 16);
    assert AlignForward(4112, 16) == 4112 by {
      assert IsPow2(16) by { SixteenIsPow2(); }
      AlignStepRoundsUp(4112, 16);
      RoundUpValue(4112, 16);
    }
    assert CursorOffset(a, 16) == 16;
    assert (16 + (Word - 8)) % Word == 8;
  }

  /**
   * `arena_alloc_aligned` as written, for a power-of-two alignment, with
   * `o` the cursor rounded up: while `o + size` stays below 2^64 it agrees
   * with the corrected `ArenaAllocAligned`; once the sum wraps, a request
   * whose wrapped end lies within the buffer is granted at `base + o`,
   * although the block runs past the end of the buffer, and the cursor
   * falls back below `o`.
   */
  lemma ArenaAllocAsWrittenWraps(a: Arena, size: nat, alignment: nat)
    requires Valid(a) && size < Word && alignment < Word && IsPow2(alignment)
    requires a.base + a.size + alignment <= Word
    ensures var o := RoundUp(a.base + a.offset, alignment) - a.base;
            var r := ArenaAllocAlignedAsWritten(a, size, alignment);
            && (o + size < Word ==> r == ArenaAllocAligned(a, size, alignment))
            && (o + size >= Word && o + size - Word > a.size ==> r == Alloc(0, a))
            && (o + size >= Word && o + size - Word <= a.size ==>
                  && r.ptr == a.base + o
                  && r.ptr + size > a.base + a.size
                  && r.after.offset == o + size - Word < o)
  {
    ArenaAlignedOffset(a, alignment);
    var o := RoundUp(a.base + a.offset, alignment) - a.base;
    var off := CursorOffset(a, alignment);
    assert off == o;
    SmallMod(a.base + o);
    if o + size < Word {
      SmallMod(o + size);
      ArenaAllocNoWrap(a, size, alignment, o);
    } else {
      ArenaAllocWrapped(a, size, alignment, o);
    }
  }

  lemma ArenaAllocWrapped(a: Arena, size: nat, alignment: nat, o: nat)
    requires WellFormed(a) && size < Word && alignment < Word
    requires o == CursorOffset(a, alignment)
    requires o + size >= Word && a.base + o < Word
    ensures var r := ArenaAllocAlignedAsWritten(a, size, alignment);
            && (o + size - Word > a.size ==> r == Alloc(0, a))
            && (o + size - Word <= a.size ==> r.ptr == a.base + o && r.after.offset == o + size - Word)
  {
    SmallMod(o + size - Word);
    SmallMod(a.base + o);
  }

  lemma ArenaAllocNoWrap(a: Arena, size: nat, alignment: nat, o: nat)
    requires WellFormed(a) && size < Word && alignment < Word
    requires o == CursorOffset(a, alignment)
    requires o + size < Word && a.base + o < Word
    ensures ArenaAllocAlignedAsWritten(a, size, alignment) == ArenaAllocAligned(a, size, alignment)
  {
    SmallMod(o + size);
    SmallMod(a.base + o);
  }

  /**
   * `arena_alloc_aligned` with the fit test the code evidently intends:
   * the block must end inside the buffer, compared without wrap-around.
   * Returns NULL and leaves the arena alone when it does not fit.
   */
  function ArenaAllocAligned(a: Arena, size: nat, alignment: nat): (r: Alloc<Arena>)
    requires WellFormed(a) && size < Word && alignment < Word
    ensures WellFormed(r.after) && r.after.base == a.base && r.after.size == a.size
    ensures Valid(a) ==> Valid(r.after)
    ensures r.ptr == 0 ==> r.after == a
    ensures r.ptr != 0 ==> a.base <= r.ptr && r.ptr + size == a.base + r.after.offset
  {
    var offset := CursorOffset(a, alignment);
    if offset > a.size || size > a.size - offset then Alloc(0, a)
    else
      Alloc(a.base + offset,
            a.(offset := offset + size, committed := (a.committed + size) % Word))
  }

  /** The cursor `arena_alloc_aligned` computes is the current one rounded up to the alignment. */
  lemma ArenaAlignedOffset(a: Arena, alignment: nat)
    requires Valid(a) && alignment < Word && IsPow2(alignment)
    requires a.base + a.size + alignment <= Word
    ensures var up := RoundUp(a.base + a.offset, alignment);
            && a.base + a.offset <= up < a.base + a.offset + alignment
            && up % alignment == 0
            && CursorOffset(a, alignment) == up - a.base
  {
    var curr := a.base + a.offset;
    Pow2Positive(alignment);
    RoundUpIsAlignment(curr, alignment);
    var up := RoundUp(curr, alignment);
    SmallMod(curr);
    var af := AlignForward(curr, alignment);
    assert af == up % Word;
    SmallMod(up);
    assert af == up;
    SmallMod(up - a.base);
    assert af + Word - a.base == (up - a.base) + Word;
  }

  lemma SmallMod(x: nat)
    requires x < Word
    ensures x % Word == x && (x + Word) % Word == x
  {
  }

  /** For a power-of-two alignment: the block starts at the cursor rounded up, and is granted exactly when it fits. */
  lemma ArenaAllocAlignedSpec(a: Arena, size: nat, alignment: nat)
    requires Valid(a) && size < Word && alignment < Word && IsPow2(alignment)
    requires a.base + a.size + alignment <= Word
    ensures var o := RoundUp(a.base + a.offset, alignment) - a.base;
            var r := ArenaAllocAligned(a, size, alignment);
            && a.offset <= o < a.offset + alignment
            && (o + size > a.size ==> r == Alloc(0, a))
            && (o + size <= a.size ==>
                  && r.ptr == a.base + o
                  && r.ptr % alignment == 0
                  && r.after == a.(offset := o + size, committed := (a.committed + size) % Word))
  {
    ArenaAlignedOffset(a, alignment);
    var up := RoundUp(a.base + a.offset, alignment);
    var o := up - a.base;
    assert CursorOffset(a, alignment) == o;
    var r := ArenaAllocAligned(a, size, alignment);
    if o + size <= a.size {
      assert !(o > a.size || size > a.size - o);
      assert r.ptr == a.base + o == up;
    } else {
      assert o > a.size || size > a.size - o;
    }
  }

  /** Two successive successful allocations hand out non-overlapping blocks inside the buffer. */
  lemma ArenaAllocationsDisjoint(a: Arena, s1: nat, al1: nat, s2: nat, al2: nat)
    requires Valid(a) && s1 < Word && s2 < Word
    requires al1 < Word && IsPow2(al1) && a.base + a.size + al1 <= Word
    requires al2 < Word && IsPow2(al2) && a.base + a.size + al2 <= Word
    ensures var r1 := ArenaAllocAligned(a, s1, al1);
            var r2 := ArenaAllocAligned(r1.after, s2, al2);
            r1.ptr != 0 && r2.ptr != 0 ==>
              a.base + a.offset <= r1.ptr && r1.ptr + s1 <= r2.ptr && r2.ptr + s2 <= a.base + a.size
  {
    var r1 := ArenaAllocAligned(a, s1, al1);
    ArenaAllocAlignedSpec(a, s1, al1);
    ArenaAllocAlignedSpec(r1.after, s2, al2);
  }

  /** `arena_alloc`: a zero-byte request returns NULL untouched; others use the default alignment. */
  function ArenaAlloc(a: Arena, size: nat): (r: Alloc<Arena>)
    requires WellFormed(a) && size < Word
    ensures size == 0 ==> r == Alloc(0, a)
    ensures Valid(a) ==> Valid(r.after)
    ensures Valid(a) && a.base + a.size + DefaultAlignment <= Word && r.ptr != 0 ==>
              r.ptr % DefaultAlignment == 0 && a.base + a.offset <= r.ptr &&
              r.ptr + size <= a.base + a.size
  {
    if size == 0 then Alloc(0, a)
    else
      var r := ArenaAllocAligned(a, size, DefaultAlignment);
      if Valid(a) && a.base + a.size + DefaultAlignment <= Word then
        assert IsPow2(DefaultAlignment) by { SixteenIsPow2(); }
        ArenaAllocAlignedSpec(a, size, DefaultAlignment);
        r
      else r
  }

  /**
   * `arena_alloc` as written: its requests go to `arena_alloc_aligned` as
   * written.  It agrees with the corrected `ArenaAlloc` unless the end of
   * the request comes within 2^64 of wrapping.
   */
  function ArenaAllocAsWritten(a: Arena, size: nat): (r: Alloc<Arena>)
    requires WellFormed(a) && size < Word
    ensures Valid(a) && a.base + a.size + DefaultAlignment + size <= Word ==> r == ArenaAlloc(a, size)
  {
    if size == 0 then Alloc(0, a)
    else if Valid(a) && a.base + a.size + DefaultAlignment + size <= Word then
      assert IsPow2(DefaultAlignment) by { SixteenIsPow2(); }
      ArenaAllocAsWrittenWraps(a, size, DefaultAlignment);
      ArenaAllocAlignedAsWritten(a, size, DefaultAlignment)
    else ArenaAllocAlignedAsWritten(a, size, DefaultAlignment)
  }

  // ------------------------------------------------------------------
  // Pool allocator
  // ------------------------------------------------------------------

  /** `sizeof(Pool_Free_Node)`: one pointer. */
  const FreeNodeSize: nat := 8

  /**
   * A pool over `bufLen` bytes at `buf`, cut into `chunkSize`-byte chunks.
   * `head` is the free list's head (0 for NULL).  As in C, a free chunk
   * keeps the address of the next free chunk in its first word, the
   * `next` field of `Pool_Free_Node`; `links` holds those words by address.
   */
  datatype Pool = Pool(buf: nat, bufLen: nat, chunkSize: nat, head: nat, links: map<nat, nat>)

  /** The link word stored at address `a`; a word never written reads as 0. */
  function Link(p: Pool, a: nat): nat {
    if a in p.links then p.links[a] else 0
  }

  /** The address of chunk `k` of the buffer. */
  function Chunk(p: Pool, k: nat): nat {
    p.buf + k * p.chunkSize
  }

  lemma ChunkNext(p: Pool, k: nat)
    ensures Chunk(p, k + 1) == Chunk(p, k) + p.chunkSize
  {
  }

  /** Two distinct chunks of `c` bytes at `a` and `b` that do not overlap. */
  predicate Apart(c: nat, a: nat, b: nat) {
    a != b && (a + c <= b || b + c <= a)
  }

  /** The chunks at the addresses in `s` are pairwise distinct and do not overlap. */
  predicate Disjoint(c: nat, s: seq<nat>) {
    forall i, j :: 0 <= i < j < |s| ==> Apart(c, s[i], s[j])
  }

  /**
   * The free list of `p` reads as `s`: the head is `s[0]` (NULL when `s` is
   * empty), each listed chunk links to the next one and the last to NULL,
   * no listed address is NULL, and the listed chunks do not overlap.
   * Following the links from the head then visits exactly `s` and stops.
   */
  predicate ListedAs(p: Pool, s: seq<nat>) {
    && Disjoint(p.chunkSize, s)
    && (forall k :: 0 <= k < |s| ==> s[k] != 0)
    && p.head == (if |s| == 0 then 0 else s[0])
    && (forall k {:trigger Link(p, s[k])} :: 0 <= k < |s| ==> Link(p, s[k]) == Successor(s, k))
  }

  /** The entry after position `k` of a list, or NULL after the last. */
  function Successor(s: seq<nat>, k: nat): nat
    requires k < |s|
  {
    if k + 1 < |s| then s[k + 1] else 0
  }

  /** Past the head, the rest of a free list is listed from the head's link. */
  lemma ListedTail(p: Pool, s: seq<nat>)
    requires ListedAs(p, s) && |s| > 0
    ensures ListedAs(p.(head := Link(p, s[0])), s[1..])
  {
    var q := p.(head := Link(p, s[0]));
    var t := s[1..];
    assert Disjoint(p.chunkSize, t) by {
      forall i, j | 0 <= i < j < |t|
        ensures Apart(p.chunkSize, t[i], t[j])
      {
        assert t[i] == s[i + 1] && t[j] == s[j + 1];
      }
    }
    forall k | 0 <= k < |t|
      ensures t[k] != 0 && Link(q, t[k]) == Successor(t, k)
    {
      assert t[k] == s[k + 1] && Link(p, s[k + 1]) == Successor(s, k + 1);
    }
    assert Link(p, s[0]) == Successor(s, 0);
  }

  /** The free list a pool holds is determined by its head and its link words. */
  lemma {:induction false} ListedAsUnique(p: Pool, s: seq<nat>, t: seq<nat>)
    requires ListedAs(p, s) && ListedAs(p, t)
    ensures s == t
    decreases |s|
  {
    if |s| > 0 {
      assert |t| > 0 && t[0] == s[0];
      ListedTail(p, s);
      ListedTail(p, t);
      ListedAsUnique(p.(head := Link(p, s[0])), s[1..], t[1..]);
      assert s == [s[0]] + s[1..] && t == [t[0]] + t[1..];
    }
  }

  /** The free list `pool_free_all`'s loop builds: chunks 0 .. n-1 pushed in turn, so chunk n-1 ends up at the head. */
  function PushedChunks(buf: nat, chunkSize: nat, n: nat): (r: seq<nat>)
    ensures |r| == n
    ensures forall k :: 0 <= k < n ==> r[k] == buf + (n - 1 - k) * chunkSize
  {
    if n == 0 then [] else [buf + (n - 1) * chunkSize] + PushedChunks(buf, chunkSize, n - 1)
  }

  /** The chunks do not overlap, are chunk-aligned relative to the buffer, and lie wholly inside it. */
  lemma PushedChunksLayout(p: Pool)
    requires p.chunkSize > 0
    ensures var s := PushedChunks(p.buf, p.chunkSize, p.bufLen / p.chunkSize);
            && Disjoint(p.chunkSize, s)
            && forall k :: 0 <= k < |s| ==>
                 p.buf <= s[k] && (s[k] - p.buf) % p.chunkSize == 0 && s[k] + p.chunkSize <= p.buf + p.bufLen
  {
    var n := p.bufLen / p.chunkSize;
    assert n * p.chunkSize <= p.bufLen;
    PushedChunksDisjoint(p.buf, p.chunkSize, n);
    PushedChunksInside(p.buf, p.bufLen, p.chunkSize, n);
  }

  lemma PushedChunksDisjoint(buf: nat, c: nat, n: nat)
    requires c > 0
    ensures Disjoint(c, PushedChunks(buf, c, n))
  {
    var s := PushedChunks(buf, c, n);
    forall i, j | 0 <= i < j < |s|
      ensures Apart(c, s[i], s[j])
    {
      assert s[i] == buf + (n - 1 - i) * c && s[j] == buf + (n - 1 - j) * c;
      ChunksApart(buf, c, n - 1 - j, n - 1 - i);
    }
  }

  lemma PushedChunksInside(buf: nat, len: nat, c: nat, n: nat)
    requires c > 0 && n * c <= len
    ensures var s := PushedChunks(buf, c, n);
            forall k :: 0 <= k < |s| ==> buf <= s[k] && (s[k] - buf) % c == 0 && s[k] + c <= buf + len
  {
    var s := PushedChunks(buf, c, n);
    forall k | 0 <= k < |s|
      ensures buf <= s[k] && (s[k] - buf) % c == 0 && s[k] + c <= buf + len
    {
      var m := n - 1 - k;
      assert s[k] == buf + m * c;
      ChunkInBuffer(buf, len, c, m, n);
    }
  }

  /** Chunk `m` of the first `n` starts on a chunk boundary and ends inside a buffer that holds `n` chunks. */
  lemma ChunkInBuffer(buf: nat, len: nat, c: nat, m: nat, n: nat)
    requires c > 0 && m < n && n * c <= len
    ensures (m * c) % c == 0 && buf + m * c + c <= buf + len
  {
    DivUnique(m * c, c, m, 0);
    MulMono(m + 1, n, c);
    assert (m + 1) * c == m * c + c;
  }

  /** Chunks `x` and `y` of the same buffer, with `x < y`, do not overlap. */
  lemma ChunksApart(buf: nat, c: nat, x: nat, y: nat)
    requires c > 0 && x < y
    ensures Apart(c, buf + x * c, buf + y * c) && Apart(c, buf + y * c, buf + x * c)
  {
    MulMono(x + 1, y, c);
    assert (x + 1) * c == x * c + c;
  }

  lemma MulMono(x: nat, y: nat, c: nat)
    requires x <= y
    ensures x * c <= y * c
  {
  }

  /** A store of the word `v` at `addr`: a link written by the pool, or a caller's write into an allocated chunk. */
  function StoreWord(p: Pool, addr: nat, v: nat): (r: Pool)
    ensures r.buf == p.buf && r.bufLen == p.bufLen && r.chunkSize == p.chunkSize && r.head == p.head
    ensures Link(r, addr) == v
    ensures forall b :: b != addr ==> Link(r, b) == Link(p, b)
  {
    p.(links := p.links[addr := v])
  }

  /** A store into a chunk that is not on the free list leaves the free list as it was. */
  lemma StoreKeepsList(p: Pool, s: seq<nat>, addr: nat, v: nat)
    requires ListedAs(p, s) && addr !in s
    ensures ListedAs(StoreWord(p, addr, v), s)
  {
  }

  /** One turn of `pool_free_all`'s loop and of `pool_free`: chunk `a` links to the old head and becomes the head. */
  function Push(p: Pool, a: nat): (r: Pool)
    ensures r.buf == p.buf && r.bufLen == p.bufLen && r.chunkSize == p.chunkSize
    ensures r.head == a && Link(r, a) == p.head
    ensures forall b :: b != a ==> Link(r, b) == Link(p, b)
  {
    StoreWord(p, a, p.head).(head := a)
  }

  /** The loop of `pool_free_all` from index `i` on: pushes chunks `i` .. `n - 1` in turn. */
  function PushChunks(p: Pool, i: nat, n: nat): (r: Pool)
    requires i <= n
    ensures r.buf == p.buf && r.bufLen == p.bufLen && r.chunkSize == p.chunkSize
    decreases n - i
  {
    if i == n then p else PushChunks(Push(p, Chunk(p, i)), i + 1, n)
  }

  /**
   * What the loop leaves behind: chunk `i` links to the head it started
   * from, every later chunk to the chunk just below it, the last chunk is
   * the head, and the words below chunk `i` are untouched.
   */
  lemma {:induction false} PushChunksLinks(p: Pool, i: nat, n: nat)
    requires i <= n && p.chunkSize > 0
    ensures var r := PushChunks(p, i, n);
            && r.head == (if i == n then p.head else Chunk(p, n - 1))
            && (i < n ==> Chunk(p, i) in r.links && r.links[Chunk(p, i)] == p.head)
            && (forall k :: i < k < n ==> Chunk(p, k) in r.links && r.links[Chunk(p, k)] + p.chunkSize == Chunk(p, k))
            && (forall a :: a < Chunk(p, i) && a in p.links ==> a in r.links && r.links[a] == p.links[a])
    decreases n - i
  {
    if i < n {
      var q := Push(p, Chunk(p, i));
      var r := PushChunks(q, i + 1, n);
      assert Chunk(q, i + 1) == Chunk(p, i) + p.chunkSize;
      PushChunksLinks(q, i + 1, n);
      assert Chunk(p, i) in r.links && r.links[Chunk(p, i)] == p.head;
      forall k | i < k < n
        ensures Chunk(p, k) in r.links && r.links[Chunk(p, k)] + p.chunkSize == Chunk(p, k)
      {
        assert Chunk(q, k) == Chunk(p, k);
      }
      forall a | a < Chunk(p, i) && a in p.links
        ensures a in r.links && r.links[a] == p.links[a]
      {
        assert a in q.links && q.links[a] == p.links[a];
      }
    }
  }

  /**
   * Replaying the loop from the head it left at chunk `i - 1`, over chunks
   * whose links already read as the loop writes them, changes nothing.
   */
  lemma {:induction false} PushChunksOver(q: Pool, i: nat, n: nat)
    requires i <= n && q.chunkSize > 0
    requires i < n ==> Chunk(q, i) in q.links && q.links[Chunk(q, i)] == (if i == 0 then 0 else Chunk(q, i - 1))
    requires forall k :: i < k < n ==> Chunk(q, k) in q.links && q.links[Chunk(q, k)] + q.chunkSize == Chunk(q, k)
    ensures PushChunks(q.(head := if i == 0 then 0 else Chunk(q, i - 1)), i, n)
              == q.(head := if n == 0 then 0 else Chunk(q, n - 1))
    decreases n - i
  {
    if i < n {
      var h := if i == 0 then 0 else Chunk(q, i - 1);
      assert q.links[Chunk(q, i) := h] == q.links;
      assert StoreWord(q.(head := h), Chunk(q, i), h) == q.(head := h);
      if i + 1 < n {
        assert Chunk(q, i + 1) == Chunk(q, i) + q.chunkSize;
      }
      PushChunksOver(q, i + 1, n);
    }
  }

  /**
   * `pool_free_all` as written: pushes every chunk onto the free list
   * without first emptying it, so chunk 0 links to whatever was the head.
   */
  function PoolFreeAllAsWritten(p: Pool): (r: Pool)
    requires p.chunkSize > 0
    ensures r.buf == p.buf && r.bufLen == p.bufLen && r.chunkSize == p.chunkSize
    ensures p.bufLen / p.chunkSize == 0 ==> r == p
    ensures p.bufLen / p.chunkSize > 0 ==>
              r.head == Chunk(p, p.bufLen / p.chunkSize - 1) && Link(r, p.buf) == p.head
    ensures forall k :: 0 < k < p.bufLen / p.chunkSize ==> Link(r, Chunk(p, k)) + p.chunkSize == Chunk(p, k)
  {
    PushChunksLinks(p, 0, p.bufLen / p.chunkSize);
    PushChunks(p, 0, p.bufLen / p.chunkSize)
  }

  /** `pool_free_all` as the code evidently intends: the head is reset first, so the free list becomes exactly the chunks of the buffer. */
  function PoolFreeAll(p: Pool): (r: Pool)
    requires p.chunkSize > 0
    ensures r.buf == p.buf && r.bufLen == p.bufLen && r.chunkSize == p.chunkSize
    ensures p.buf > 0 ==> ListedAs(r, PushedChunks(p.buf, p.chunkSize, p.bufLen / p.chunkSize))
  {
    if p.buf > 0 then FreshLoopLists(p.(head := 0)); PushChunks(p.(head := 0), 0, p.bufLen / p.chunkSize)
    else PushChunks(p.(head := 0), 0, p.bufLen / p.chunkSize)
  }

  /** Run from an empty free list, the loop of `pool_free_all` lists the chunks from the last down to the first. */
  lemma FreshLoopLists(q: Pool)
    requires q.chunkSize > 0 && q.buf > 0 && q.head == 0
    ensures ListedAs(PushChunks(q, 0, q.bufLen / q.chunkSize), PushedChunks(q.buf, q.chunkSize, q.bufLen / q.chunkSize))
  {
    var n := q.bufLen / q.chunkSize;
    PushChunksLinks(q, 0, n);
    PushedChunksLayout(q);
    var r := PushChunks(q, 0, n);
    var s := PushedChunks(q.buf, q.chunkSize, n);
    forall k | 0 <= k < |s|
      ensures Link(r, s[k]) == Successor(s, k)
    {
      FreshLoopLink(q, k);
    }
  }

  /** The link the loop leaves in the `k`-th chunk of the list it builds. */
  lemma FreshLoopLink(q: Pool, k: nat)
    requires q.chunkSize > 0 && q.head == 0 && k < q.bufLen / q.chunkSize
    ensures var s := PushedChunks(q.buf, q.chunkSize, q.bufLen / q.chunkSize);
            Link(PushChunks(q, 0, q.bufLen / q.chunkSize), s[k]) == Successor(s, k)
  {
    var n := q.bufLen / q.chunkSize;
    PushChunksLinks(q, 0, n);
    var s := PushedChunks(q.buf, q.chunkSize, n);
    var m := n - 1 - k;
    assert s[k] == Chunk(q, m);
    if k + 1 < |s| {
      ChunkNext(q, m - 1);
      assert s[k + 1] == Chunk(q, m - 1);
    }
  }

  /** The corrected `pool_free_all` is idempotent: calling it again changes nothing. */
  lemma PoolFreeAllIdempotent(p: Pool)
    requires p.chunkSize > 0
    ensures PoolFreeAll(PoolFreeAll(p)) == PoolFreeAll(p)
  {
    var n := p.bufLen / p.chunkSize;
    var q := PoolFreeAll(p);
    PushChunksLinks(p.(head := 0), 0, n);
    assert forall k :: Chunk(q, k) == Chunk(p.(head := 0), k);
    PushChunksOver(q, 0, n);
    assert q.(head := if n == 0 then 0 else Chunk(q, n - 1)) == q;
  }

  /** The address reached from `a` by following `m` links, stopping at NULL. */
  function Follow(p: Pool, a: nat, m: nat): nat
    decreases m
  {
    if m == 0 || a == 0 then a else Follow(p, Link(p, a), m - 1)
  }

  /** Following the links of a listed free list from its head visits the list in order and reaches NULL after its last chunk. */
  lemma {:induction false} ListedWalk(p: Pool, s: seq<nat>, m: nat)
    requires ListedAs(p, s) && m <= |s|
    ensures Follow(p, p.head, m) == if m < |s| then s[m] else 0
    decreases m
  {
    if m > 0 {
      ListedWalk(p, s, m - 1);
      FollowOneMore(p, p.head, m - 1);
      assert Link(p, s[m - 1]) == Successor(s, m - 1);
    }
  }

  /** One more step of a walk follows the link where the walk stood, unless it stood at NULL. */
  lemma {:induction false} FollowOneMore(p: Pool, a: nat, m: nat)
    ensures Follow(p, a, m + 1) == if Follow(p, a, m) == 0 then 0 else Link(p, Follow(p, a, m))
    decreases m
  {
    if m > 0 && a != 0 {
      FollowOneMore(p, Link(p, a), m - 1);
    }
  }

  /**
   * From any chunk of a buffer whose chunk 0 links to chunk `j` and every
   * other chunk to the one below it, the walk never reaches NULL.
   */
  lemma {:induction false} CycleNeverEnds(r: Pool, n: nat, j: nat, i: nat, m: nat)
    requires r.buf > 0 && j < n && i < n
    requires Link(r, r.buf) == Chunk(r, j)
    requires forall k :: 0 < k < n ==> Link(r, Chunk(r, k)) + r.chunkSize == Chunk(r, k)
    ensures Follow(r, Chunk(r, i), m) != 0
    decreases m
  {
    if m > 0 {
      if i == 0 {
        CycleNeverEnds(r, n, j, j, m - 1);
      } else {
        ChunkNext(r, i - 1);
        CycleNeverEnds(r, n, j, i - 1, m - 1);
      }
    }
  }

  /**
   * When the free list is not empty its head is one of the buffer's chunks,
   * and `pool_free_all` as written then links chunk 0 back to that chunk:
   * the walk from the new head never reaches NULL, whereas the walk along
   * any listed free list does (`ListedWalk`).
   */
  lemma PoolFreeAllAsWrittenCycles(p: Pool, j: nat)
    requires p.chunkSize > 0 && p.buf > 0 && j < p.bufLen / p.chunkSize && p.head == Chunk(p, j)
    ensures var r := PoolFreeAllAsWritten(p);
            forall m :: Follow(r, r.head, m) != 0
  {
    var n := p.bufLen / p.chunkSize;
    var r := PoolFreeAllAsWritten(p);
    assert forall k :: Chunk(r, k) == Chunk(p, k);
    forall m
      ensures Follow(r, r.head, m) != 0
    {
      CycleNeverEnds(r, n, j, n - 1, m);
    }
  }

  /** Two `pool_free_all` calls as written, on a two-chunk pool: the third allocation hands out the chunk the first still holds, and the fourth finds nothing. */
  lemma PoolFreeAllTwiceReusesLiveChunk(memory: map<nat, nat>)
    ensures var p := PoolFreeAllAsWritten(PoolFreeAllAsWritten(Pool(4096, 128, 64, 0, memory)));
            var a1 := PoolAlloc(p);
            var a2 := PoolAlloc(a1.after);
            var a3 := PoolAlloc(a2.after);
            var a4 := PoolAlloc(a3.after);
            a1.ptr == 4160 && a2.ptr == 4096 && a3.ptr == 4160 && a4.ptr == 0
  {
    var q := PoolFreeAllAsWritten(Pool(4096, 128, 64, 0, memory));
    assert Chunk(q, 1) == 4160;
    var p := PoolFreeAllAsWritten(q);
    assert p.head == 4160 && Link(p, 4160) == 4096 && Link(p, 4096) == 4160;
  }

  /**
   * `pool_alloc`: pops the head of the free list and zeroes the chunk, which
   * clears every link word stored in it; an empty list yields NULL.
   */
  function PoolAlloc(p: Pool): (r: Alloc<Pool>)
    ensures r.after.buf == p.buf && r.after.bufLen == p.bufLen && r.after.chunkSize == p.chunkSize
    ensures p.head == 0 ==> r == Alloc(0, p)
    ensures p.head != 0 ==> r.ptr == p.head && r.after.head == Link(p, p.head)
    ensures forall a: nat :: Link(r.after, a) == if p.head != 0 && p.head <= a < p.head + p.chunkSize then 0 else Link(p, a)
  {
    if p.head == 0 then Alloc(0, p)
    else
      var zeroed := map a | a in p.links :: if p.head <= a < p.head + p.chunkSize then 0 else p.links[a];
      Alloc(p.head, p.(head := Link(p, p.head), links := zeroed))
  }

  /** `pool_alloc` on the free list `s`: NULL when it is empty, otherwise its first chunk, leaving the rest listed. */
  lemma PoolAllocTakesChunk(p: Pool, s: seq<nat>)
    requires ListedAs(p, s)
    ensures var r := PoolAlloc(p);
            && (s == [] ==> r.ptr == 0)
            && (s != [] ==> r.ptr == s[0] && r.ptr !in s[1..] && ListedAs(r.after, s[1..]))
  {
    if s != [] {
      var r := PoolAlloc(p);
      forall k | 0 <= k < |s[1..]|
        ensures Link(r.after, s[1..][k]) == if k + 1 < |s[1..]| then s[1..][k + 1] else 0
      {
        assert s[1..][k] == s[k + 1] && Apart(p.chunkSize, s[0], s[k + 1]);
      }
      assert forall k :: 0 <= k < |s[1..]| ==> s[1..][k] == s[k + 1] && Apart(p.chunkSize, s[0], s[k + 1]);
    }
  }

  /** Whether `ptr` lies in the pool's buffer, the only addresses `pool_free` accepts. */
  predicate InPool(p: Pool, ptr: nat) {
    p.buf <= ptr < p.buf + p.bufLen
  }

  /** Every chunk of the buffer lies in the pool, so `pool_free` accepts each one back. */
  lemma ChunksInPool(p: Pool)
    requires p.chunkSize > 0
    ensures forall k :: 0 <= k < p.bufLen / p.chunkSize ==> InPool(p, Chunk(p, k))
  {
    var n := p.bufLen / p.chunkSize;
    assert n * p.chunkSize <= p.bufLen;
    forall k | 0 <= k < n
      ensures InPool(p, Chunk(p, k))
    {
      ChunkInBuffer(p.buf, p.bufLen, p.chunkSize, k, n);
    }
  }

  /** `pool_free`: ignores NULL and addresses outside the buffer, and otherwise links the chunk to the head and makes it the head. */
  function PoolFree(p: Pool, ptr: nat): (r: Pool)
    ensures r.buf == p.buf && r.bufLen == p.bufLen && r.chunkSize == p.chunkSize
    ensures ptr == 0 || !InPool(p, ptr) ==> r == p
    ensures ptr != 0 && InPool(p, ptr) ==>
              && r.head == ptr && Link(r, ptr) == p.head
              && forall b :: b != ptr ==> Link(r, b) == Link(p, b)
  {
    if ptr == 0 then p
    else if !InPool(p, ptr) then p
    else Push(p, ptr)
  }

  /** Freeing a chunk that overlaps no free chunk puts it at the front of the free list. */
  lemma PoolFreePushes(p: Pool, s: seq<nat>, ptr: nat)
    requires ListedAs(p, s) && ptr != 0 && InPool(p, ptr) && Disjoint(p.chunkSize, [ptr] + s)
    ensures ListedAs(PoolFree(p, ptr), [ptr] + s)
  {
    var t := [ptr] + s;
    var r := PoolFree(p, ptr);
    forall k | 0 <= k < |t|
      ensures Link(r, t[k]) == Successor(t, k)
    {
      if k > 0 {
        assert t[k] == s[k - 1] && Apart(p.chunkSize, t[0], t[k]);
        assert Link(p, s[k - 1]) == Successor(s, k - 1);
      }
    }
  }

  /** The free list is LIFO: the chunk freed last is the one handed out next, and the list is as it was. */
  lemma PoolLastFreedFirstReused(p: Pool, s: seq<nat>, ptr: nat)
    requires ListedAs(p, s) && ptr != 0 && InPool(p, ptr) && Disjoint(p.chunkSize, [ptr] + s)
    ensures var r := PoolAlloc(PoolFree(p, ptr));
            r.ptr == ptr && ListedAs(r.after, s)
  {
    PoolFreePushes(p, s, ptr);
    PoolAllocTakesChunk(PoolFree(p, ptr), [ptr] + s);
    assert ([ptr] + s)[1..] == s;
  }

  /**
   * Freeing the head again (a double free) makes it link to itself: the next
   * two allocations both hand it out, and the rest of the free list is lost.
   */
  lemma PoolDoubleFreeLosesList(p: Pool, ptr: nat)
    requires p.chunkSize > 0 && ptr != 0 && InPool(p, ptr) && p.head == ptr
    ensures var a1 := PoolAlloc(PoolFree(p, ptr));
            var a2 := PoolAlloc(a1.after);
            a1.ptr == ptr && a2.ptr == ptr && a2.after.head == 0
  {
  }

  /** The length `pool_init` keeps after skipping to an aligned start; the subtraction wraps in `size_t`. */
  function AdjustedLength(backing: nat, len: nat, align: nat): (r: nat)
    requires backing < LongRange && len < Word && align < LongRange && IsPowerOfTwoFn(align)
    ensures r < Word
  {
    var start := AlignForwardUintptr(backing, align);
    var skipped := (start + Word - backing) % Word;
    (len + Word - skipped) % Word
  }

  /**
   * The demands of `pool_init`: a non-NULL buffer, a power-of-two (or zero)
   * alignment, a chunk big enough for a link, a buffer big enough for a chunk.
   */
  predicate PoolInitAccepts(backing: nat, len: nat, chunkSize: nat, align: nat)
    ensures PoolInitAccepts(backing, len, chunkSize, align) ==> IsPow2(align)
  {
    && 0 < backing < LongRange && len < Word && chunkSize < Word && align < LongRange
    && IsPowerOfTwoFn(align)
    && AlignForwardSize(chunkSize, align) >= FreeNodeSize
    && AdjustedLength(backing, len, align) >= AlignForwardSize(chunkSize, align)
  }

  /**
   * `pool_init`: shortens the buffer by the bytes needed to align its start
   * (but keeps the original start as `buf`), rounds the chunk size up to the
   * alignment, empties the free list and frees every chunk.  `memory` is
   * whatever the buffer held before.
   */
  function PoolInit(backing: nat, len: nat, chunkSize: nat, align: nat, memory: map<nat, nat>): (p: Pool)
    requires PoolInitAccepts(backing, len, chunkSize, align)
    ensures p.buf == backing && p.bufLen == AdjustedLength(backing, len, align)
    ensures IsPow2(align) && p.chunkSize >= FreeNodeSize
    ensures chunkSize + align <= Word ==>
              p.chunkSize % align == 0 && chunkSize <= p.chunkSize < chunkSize + align
    ensures p.bufLen / p.chunkSize >= 1
    ensures ListedAs(p, PushedChunks(p.buf, p.chunkSize, p.bufLen / p.chunkSize))
  {
    var c := AlignForwardSize(chunkSize, align);
    AlignedChunkSize(chunkSize, align);
    var q := Pool(backing, AdjustedLength(backing, len, align), c, 0, memory);
    DivAtLeastOne(q.bufLen, c);
    assert PoolFreeAll(q) == PoolFreeAllAsWritten(q) by {
      assert q.(head := 0) == q;
    }
    PoolFreeAllAsWritten(q)
  }

  lemma AlignedChunkSize(chunkSize: nat, align: nat)
    requires chunkSize < Word && align < LongRange && IsPowerOfTwoFn(align)
    requires AlignForwardSize(chunkSize, align) >= FreeNodeSize
    ensures IsPow2(align)
    ensures chunkSize + align <= Word ==>
              && AlignForwardSize(chunkSize, align) % align == 0
              && chunkSize <= AlignForwardSize(chunkSize, align) < chunkSize + align
  {
    Pow2Positive(align);
    if chunkSize + align <= Word {
      RoundUpIsAlignment(chunkSize, align);
      SmallMod(RoundUp(chunkSize, align));
    }
  }

  lemma DivAtLeastOne(n: nat, c: nat)
    requires n >= c > 0
    ensures n / c >= 1
  {
  }

  /** The alignment steps of the pool test for a buffer placed at 4096: the address and the 64-byte chunks are already 16-aligned. */
  lemma PoolTestAlignment()
    ensures IsPowerOfTwoFn(16)
    ensures AlignForwardSize(64, 16) == 64 && AlignForwardUintptr(4096, 16) == 4096
  {
    SixteenIsPow2();
    RoundUpValue(4096, 16);
    RoundUpValue(64, 16);
    SmallMod(4096);
    SmallMod(64);
  }

  /**
   * The pool test's initialisation for a buffer at any 16-aligned address:
   * the buffer keeps its 1024 bytes and is cut into sixteen 64-byte chunks.
   */
  lemma PoolTestInitAligned(buf: nat, memory: map<nat, nat>)
    requires 0 < buf < LongRange && buf % 16 == 0
    ensures PoolInitAccepts(buf, 1024, 64, DefaultAlignment)
    ensures var p := PoolInit(buf, 1024, 64, DefaultAlignment, memory);
            p.buf == buf && p.bufLen == 1024 && p.chunkSize == 64 && ListedAs(p, PushedChunks(buf, 64, 16))
  {
    SixteenIsPow2();
    RoundUpValue(buf, 16);
    RoundUpValue(64, 16);
    SmallMod(buf);
    SmallMod(64);
    assert AlignForwardUintptr(buf, 16) == buf;
    assert AdjustedLength(buf, 1024, 16) == 1024;
    assert 1024 / 64 == 16;
  }

  /**
   * The same for a buffer that is not 16-aligned, which C allows for a stack
   * array of bytes: `pool_init` gives up the bytes before the next aligned
   * address, so fifteen chunks remain, still enough for the test's six
   * allocations.  The chunks start at the unaligned address itself.
   */
  lemma PoolTestInitUnaligned(buf: nat, memory: map<nat, nat>)
    requires 0 < buf < LongRange - 16 && buf % 16 != 0
    ensures PoolInitAccepts(buf, 1024, 64, DefaultAlignment)
    ensures var p := PoolInit(buf, 1024, 64, DefaultAlignment, memory);
            && p.buf == buf && p.bufLen == 1024 - (16 - buf % 16) && p.chunkSize == 64
            && ListedAs(p, PushedChunks(buf, 64, 15))
  {
    var skipped := 16 - buf % 16;
    assert AdjustedLength(buf, 1024, 16) == 1024 - skipped by {
      UnalignedStart(buf);
      SmallMod(skipped);
      SmallMod(1024 - skipped);
    }
    assert AlignForwardSize(64, 16) == 64 by {
      SixteenIsPow2();
      RoundUpValue(64, 16);
      SmallMod(64);
    }
    DivUnique(1024 - skipped, 64, 15, 1024 - skipped - 960);
  }

  /** An address that is not 16-aligned moves up by `16 - buf % 16`. */
  lemma UnalignedStart(buf: nat)
    requires 0 < buf < LongRange - 16 && buf % 16 != 0
    ensures IsPowerOfTwoFn(16) && AlignForwardUintptr(buf, 16) == buf + (16 - buf % 16)
  {
    SixteenIsPow2();
    RoundUpValue(buf, 16);
    SmallMod(buf - buf % 16 + 16);
  }

  /** The pool of the pool test, with the buffer placed at 4096. */
  lemma PoolTestInit(memory: map<nat, nat>)
    ensures PoolInitAccepts(4096, 1024, 64, DefaultAlignment)
    ensures var p := PoolInit(4096, 1024, 64, DefaultAlignment, memory);
            p.buf == 4096 && p.bufLen == 1024 && p.chunkSize == 64 && ListedAs(p, PushedChunks(4096, 64, 16))
  {
    PoolTestInitAligned(4096, memory);
  }

  /** Freeing `x`, which overlaps no chunk of the free list `s`: the list becomes `[x] + s`. */
  lemma FreeOnto(p: Pool, s: seq<nat>, x: nat)
    requires ListedAs(p, s) && x != 0 && InPool(p, x)
    requires forall k :: 0 <= k < |s| ==> Apart(p.chunkSize, x, s[k])
    ensures ListedAs(PoolFree(p, x), [x] + s)
  {
    var t := [x] + s;
    assert forall k :: 0 < k < |t| ==> t[k] == s[k - 1];
    PoolFreePushes(p, s, x);
  }

  /** Three allocations in a row hand out the first three chunks of the free list, in order. */
  lemma PoolAllocThree(p: Pool, l: seq<nat>)
    requires ListedAs(p, l) && |l| >= 3
    ensures var a := PoolAlloc(p);
            var b := PoolAlloc(a.after);
            var c := PoolAlloc(b.after);
            && a.ptr == l[0] && b.ptr == l[1] && c.ptr == l[2]
            && c.after.buf == p.buf && c.after.bufLen == p.bufLen && c.after.chunkSize == p.chunkSize
            && ListedAs(c.after, l[3..])
  {
    var a := PoolAlloc(p);
    PoolAllocTakesChunk(p, l);
    assert l[1..][1..] == l[2..] && l[2..][1..] == l[3..];
    var b := PoolAlloc(a.after);
    PoolAllocTakesChunk(a.after, l[1..]);
    PoolAllocTakesChunk(b.after, l[2..]);
  }

  /** Six allocations in a row hand out the first six chunks of the free list, in order. */
  lemma PoolAllocSix(p: Pool, l: seq<nat>)
    requires ListedAs(p, l) && |l| >= 6
    ensures var a := PoolAlloc(p);
            var b := PoolAlloc(a.after);
            var c := PoolAlloc(b.after);
            var d := PoolAlloc(c.after);
            var e := PoolAlloc(d.after);
            var f := PoolAlloc(e.after);
            && a.ptr == l[0] && b.ptr == l[1] && c.ptr == l[2]
            && d.ptr == l[3] && e.ptr == l[4] && f.ptr == l[5]
            && f.after.buf == p.buf && f.after.bufLen == p.bufLen && f.after.chunkSize == p.chunkSize
            && ListedAs(f.after, l[6..])
  {
    PoolAllocThree(p, l);
    var c := PoolAlloc(PoolAlloc(PoolAlloc(p).after).after);
    PoolAllocThree(c.after, l[3..]);
    assert l[3..][3..] == l[6..];
  }

  /** The chunk addresses of the pool test's free list: the six at the top, and the rest below them. */
  lemma PoolTestChunks()
    ensures var l := PushedChunks(4096, 64, 16);
            && |l| == 16
            && [l[0], l[1], l[2], l[3], l[4], l[5]] == [4096 + 15 * 64, 4096 + 14 * 64, 4096 + 13 * 64, 4096 + 12 * 64, 4096 + 11 * 64, 4096 + 10 * 64]
            && forall k :: 0 <= k < |l[6..]| ==> l[6..][k] + 64 <= 4096 + 10 * 64
  {
  }

  /**
   * The caller's writes of the pool test, one word of 5 into each of the
   * six allocated chunks, leave the free list `t` alone.
   */
  lemma PoolTestWrites(p: Pool, a: nat, b: nat, c: nat, d: nat, e: nat, f: nat, t: seq<nat>)
    requires ListedAs(p, t) && a !in t && b !in t && c !in t && d !in t && e !in t && f !in t
    requires a != b && a != c && a != d && a != e && a != f
    ensures var w := StoreWord(StoreWord(StoreWord(StoreWord(StoreWord(StoreWord(p, a, 5), b, 5), c, 5), d, 5), e, 5), f, 5);
            && w.buf == p.buf && w.bufLen == p.bufLen && w.chunkSize == p.chunkSize
            && ListedAs(w, t) && Link(w, a) == 5
  {
    var w1 := StoreWord(p, a, 5);
    StoreKeepsList(p, t, a, 5);
    var w2 := StoreWord(w1, b, 5);
    StoreKeepsList(w1, t, b, 5);
    var w3 := StoreWord(w2, c, 5);
    StoreKeepsList(w2, t, c, 5);
    var w4 := StoreWord(w3, d, 5);
    StoreKeepsList(w3, t, d, 5);
    var w5 := StoreWord(w4, e, 5);
    StoreKeepsList(w4, t, e, 5);
    StoreKeepsList(w5, t, f, 5);
  }

  /**
   * The frees of the pool test: `f`, `c`, `b` and `d` go back on the free
   * list, the next allocation returns `d`, the chunk freed last, and the
   * word written through `a`, which was never freed, still reads 5.
   */
  lemma PoolTestFrees(w: Pool, a: nat, b: nat, c: nat, d: nat, f: nat, t: seq<nat>)
    requires w.buf == 4096 && w.bufLen == 1024 && w.chunkSize == 64
    requires ListedAs(w, t) && forall k :: 0 <= k < |t| ==> t[k] + 64 <= 4096 + 10 * 64
    requires a == 4096 + 15 * 64 && b == 4096 + 14 * 64 && c == 4096 + 13 * 64
    requires d == 4096 + 12 * 64 && f == 4096 + 10 * 64
    requires Link(w, a) == 5
    ensures var freed := PoolFree(PoolFree(PoolFree(PoolFree(w, f), c), b), d);
            var d2 := PoolAlloc(freed);
            && d2.ptr == d && Link(d2.after, a) == 5
            && ListedAs(d2.after, [b, c, f] + t)
  {
    var q1 := PoolFree(w, f);
    FreeOnto(w, t, f);
    var s1 := [f] + t;
    var q2 := PoolFree(q1, c);
    FreeOnto(q1, s1, c);
    var s2 := [c] + s1;
    var q3 := PoolFree(q2, b);
    FreeOnto(q2, s2, b);
    var s3 := [b] + s2;
    var freed := PoolFree(q3, d);
    FreeOnto(q3, s3, d);
    var s4 := [d] + s3;
    PoolAllocTakesChunk(freed, s4);
    assert s4[1..] == [b, c, f] + t;
  }

  /**
   * The pool test up to its `ASSERT_TRUE`: six allocations from the top of
   * the buffer down, a write of 5 through each pointer, four frees, and an
   * allocation that returns `d`, the chunk freed last, while the word
   * written through `a` still reads 5.
   */
  lemma PoolTestScenario(memory: map<nat, nat>)
    ensures PoolInitAccepts(4096, 1024, 64, DefaultAlignment)
    ensures var p := PoolInit(4096, 1024, 64, DefaultAlignment, memory);
            var a := PoolAlloc(p);
            var b := PoolAlloc(a.after);
            var c := PoolAlloc(b.after);
            var d := PoolAlloc(c.after);
            var e := PoolAlloc(d.after);
            var f := PoolAlloc(e.after);
            var w := StoreWord(StoreWord(StoreWord(StoreWord(StoreWord(StoreWord(
                       f.after, a.ptr, 5), b.ptr, 5), c.ptr, 5), d.ptr, 5), e.ptr, 5), f.ptr, 5);
            var freed := PoolFree(PoolFree(PoolFree(PoolFree(w, f.ptr), c.ptr), b.ptr), d.ptr);
            var d2 := PoolAlloc(freed);
            && a.ptr == 4096 + 15 * 64 && f.ptr == 4096 + 10 * 64
            && d2.ptr == d.ptr && Link(d2.after, a.ptr) == 5
  {
    PoolTestInit(memory);
    var p := PoolInit(4096, 1024, 64, DefaultAlignment, memory);
    var l := PushedChunks(4096, 64, 16);
    PoolAllocSix(p, l);
    PoolTestChunks();
    var t := l[6..];
    var a := PoolAlloc(p);
    var b := PoolAlloc(a.after);
    var c := PoolAlloc(b.after);
    var d := PoolAlloc(c.after);
    var e := PoolAlloc(d.after);
    var f := PoolAlloc(e.after);
    PoolTestWrites(f.after, a.ptr, b.ptr, c.ptr, d.ptr, e.ptr, f.ptr, t);
    var w := StoreWord(StoreWord(StoreWord(StoreWord(StoreWord(StoreWord(
               f.after, a.ptr, 5), b.ptr, 5), c.ptr, 5), d.ptr, 5), e.ptr, 5), f.ptr, 5);
    PoolTestFrees(w, a.ptr, b.ptr, c.ptr, d.ptr, f.ptr, t);
  }

  /**
   * The end of the pool test, from the free list `PoolTestFrees` leaves:
   * `a` is freed and the next allocation returns it, then `e`, `a` and `d`
   * are freed, which puts them in front of the list in reverse order.
   */
  lemma PoolTestRefrees(q: Pool, a: nat, b: nat, c: nat, d: nat, e: nat, f: nat, t: seq<nat>)
    requires q.buf == 4096 && q.bufLen == 1024 && q.chunkSize == 64
    requires forall k :: 0 <= k < |t| ==> t[k] + 64 <= 4096 + 10 * 64
    requires a == 4096 + 15 * 64 && b == 4096 + 14 * 64 && c == 4096 + 13 * 64
    requires d == 4096 + 12 * 64 && e == 4096 + 11 * 64 && f == 4096 + 10 * 64
    requires ListedAs(q, [b, c, f] + t)
    ensures var a2 := PoolAlloc(PoolFree(q, a));
            var last := PoolFree(PoolFree(PoolFree(a2.after, e), a), d);
            && a2.ptr == a
            && ListedAs(last, [d, a, e, b, c, f] + t)
  {
    var s0 := [b, c, f] + t;
    FreeOnto(q, s0, a);
    PoolAllocTakesChunk(PoolFree(q, a), [a] + s0);
    assert ([a] + s0)[1..] == s0;
    var a2 := PoolAlloc(PoolFree(q, a));
    var q1 := PoolFree(a2.after, e);
    FreeOnto(a2.after, s0, e);
    var q2 := PoolFree(q1, a);
    FreeOnto(q1, [e] + s0, a);
    FreeOnto(q2, [a] + ([e] + s0), d);
    assert [d] + ([a] + ([e] + s0)) == [d, a, e, b, c, f] + t;
  }
}
