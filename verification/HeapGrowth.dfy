/**
  The growth arithmetic of the kernel and user heaps (the rescue closures in
  kernel/src/allocator.rs).  Of the buddy allocator only this is used: adding
  the range [start, end) raises `stats_total_bytes` by end - start.
 */
module HeapGrowth {
  import opened Addresses
  import opened Arithmetic

  function Pow2(k: nat): (p: nat)
    ensures p >= 1
  {
    if k == 0 then 1 else 2 * Pow2(k - 1)
  }

  ghost predicate IsPow2(n: nat) { exists k: nat :: n == Pow2(k) }

  /** The smallest power of two that is at least `n` and at least `p`, for a power of two `p`. */
  function PowFrom(n: nat, p: nat): (r: nat)
    requires p >= 1
    decreases n - p
  {
    if p >= n then p else PowFrom(n, 2 * p)
  }

  /** `u64::next_power_of_two` (1 for 0). */
  function NextPow2(n: nat): (r: nat) { PowFrom(n, 1) }

  lemma {:induction false} Pow2Mono(j: nat, k: nat)
    requires j <= k
    ensures Pow2(j) <= Pow2(k) && (j < k ==> 2 * Pow2(j) <= Pow2(k))
    decreases k
  {
    if j < k {
      Pow2Mono(j, k - 1);
    }
  }

  /** Of two powers of two the smaller divides the larger. */
  lemma {:induction false} Pow2Divides(j: nat, k: nat)
    requires j <= k
    ensures Pow2(k) % Pow2(j) == 0
    decreases k
  {
    if j < k {
      Pow2Divides(j, k - 1);
      var d, q := Pow2(j), Pow2(k - 1) / Pow2(j);
      assert Pow2(k - 1) == q * d;
      assert Pow2(k) == (2 * q) * d;
      DivUnique(Pow2(k), d, 2 * q, 0);
    } else {
      DivUnique(Pow2(k), Pow2(j), 1, 0);
    }
  }

  lemma Compare(a: nat, b: nat)
    requires IsPow2(a) && IsPow2(b)
    ensures a < b ==> 2 * a <= b
    ensures a <= b ==> a > 0 && b % a == 0
  {
    var j: nat :| a == Pow2(j);
    var k: nat :| b == Pow2(k);
    if j <= k {
      Pow2Mono(j, k);
      Pow2Divides(j, k);
    } else {
      Pow2Mono(k, j);
    }
  }

  lemma Doubled(a: nat)
    requires IsPow2(a)
    ensures IsPow2(2 * a)
  {
    var k: nat :| a == Pow2(k);
    assert 2 * a == Pow2(k + 1);
  }

  lemma {:induction false} PowFromIs(n: nat, p: nat)
    requires IsPow2(p)
    ensures IsPow2(PowFrom(n, p)) && PowFrom(n, p) >= n && PowFrom(n, p) >= p
    ensures forall q: nat :: IsPow2(q) && q >= n && q >= p ==> q >= PowFrom(n, p)
    decreases n - p
  {
    if p < n {
      Doubled(p);
      PowFromIs(n, 2 * p);
      forall q: nat | IsPow2(q) && q >= n && q >= p ensures q >= PowFrom(n, p) {
        Compare(p, q);
      }
    }
  }

  /** `next_power_of_two` returns the least power of two that is large enough. */
  lemma NextPow2Is(n: nat)
    ensures IsPow2(NextPow2(n)) && NextPow2(n) >= n
    ensures forall q: nat :: IsPow2(q) && q >= n ==> q >= NextPow2(n)
  {
    assert 1 == Pow2(0);
    PowFromIs(n, 1);
    forall q: nat | IsPow2(q) ensures q >= 1 {
      var k: nat :| q == Pow2(k);
    }
  }

  lemma NextPow2Of(n: nat, p: nat)
    requires IsPow2(p) && p >= n && (n > 0 ==> p < 2 * n) && (n == 0 ==> p == 1)
    ensures NextPow2(n) == p
  {
    NextPow2Is(n);
    Compare(NextPow2(n), p);
  }

  // ------------------------------------------------------------------- one growth

  function Max(a: nat, b: nat): (m: nat) { if a >= b then a else b }

  /** `min_size_to_add`. */
  function MinToAdd(total: nat, size: nat, align: nat): (m: nat)
    requires align > 0
  {
    var padded := AlignUp(total, align);
    NextPow2(if padded >= total then padded - total + size else size)
  }

  /** `new_total_size`, before rounding to pages. */
  function NewTotal(total: nat, size: nat, align: nat): (t: nat)
    requires align > 0
  {
    Max(NextPow2(MinToAdd(total, size, align) + total), MinToAdd(total, size, align) * 2)
  }

  /** The heap's total is nothing or a power of two of at least a page. */
  ghost predicate HeapTotal(n: nat) { n == 0 || (IsPow2(n) && n >= 4096) }

  /** The unrounded new total is exactly twice the larger of the old total and the minimum to add. */
  lemma NewTotalIs(total: nat, size: nat, align: nat)
    requires HeapTotal(total) && IsPow2(align)
    ensures IsPow2(MinToAdd(total, size, align))
    ensures NewTotal(total, size, align) == 2 * Max(total, MinToAdd(total, size, align))
    ensures NewTotal(total, size, align) > total
  {
    PowPositive(align);
    hide NextPow2, IsPow2, AlignUp;
    var padded := AlignUp(total, align);
    var min := MinToAdd(total, size, align);
    NextPow2Is(if padded >= total then padded - total + size else size);
    PowPositive(min);
    Doubled(min);
    if total == 0 {
      NextPow2Of(min, min);
    } else {
      Doubled(total);
      Compare(total, min);
      Compare(min, total);
      NextPow2Of(min + total, 2 * Max(total, min));
    }
  }

  /** `m` is the least multiple of `align` that is at least `n`. */
  ghost predicate LeastMultiple(m: nat, n: nat, align: nat)
    requires align > 0
  {
    m % align == 0 && m >= n && forall k: nat :: k % align == 0 && k >= n ==> k >= m
  }

  /** `p` is the least power of two that is at least `n`. */
  ghost predicate LeastPow2(p: nat, n: nat)
  {
    IsPow2(p) && p >= n && forall q: nat :: IsPow2(q) && q >= n ==> q >= p
  }

  /**
    The same without the intermediate sizes.  With `m` the first aligned end at
    or after the old end, and `p` the least power of two that holds the padding
    up to it and the request, the new total is twice the larger of `p` and the
    old total.
   */
  lemma NewTotalExactly(total: nat, size: nat, align: nat, m: nat, p: nat)
    requires HeapTotal(total) && IsPow2(align) && align > 0
    requires LeastMultiple(m, total, align) && LeastPow2(p, m - total + size)
    ensures NewTotal(total, size, align) == 2 * (if total >= p then total else p)
  {
    NewTotalIs(total, size, align);
    AlignUpLeast(total, align);
    var padded := AlignUp(total, align);
    assert m == padded;
    NextPow2Is(padded - total + size);
    hide NextPow2, IsPow2, AlignUp;
    assert MinToAdd(total, size, align) == p;
  }

  /** In particular a request that is no larger than the heap, nor more aligned, doubles it. */
  lemma SmallRequestDoubles(total: nat, size: nat, align: nat)
    requires HeapTotal(total) && total > 0 && IsPow2(align) && size <= total && align <= total
    ensures align > 0 && NewTotal(total, size, align) == 2 * total
  {
    PowPositive(align);
    Compare(align, total);
    NextPow2Is(size);
    hide NextPow2;
    NewTotalExactly(total, size, align, total, NextPow2(size));
  }

  lemma PowPositive(n: nat)
    requires IsPow2(n)
    ensures n >= 1
  {
  }

  /** First page number of the added range, and the one after its last. */
  function FirstAdded(base: nat, total: nat): (n: nat) { (base + total) / 4096 }

  function EndAdded(base: nat, total: nat, size: nat, align: nat): (n: nat)
    requires align > 0
  {
    var t := NewTotal(total, size, align);
    (base + total + (if t > total then t - total else 1) - 1) / 4096 + 1
  }

  /** `stats_total_bytes` after the growth. */
  function Grown(base: nat, total: nat, size: nat, align: nat): (t: nat)
    requires align > 0
  {
    var first, end := FirstAdded(base, total), EndAdded(base, total, size, align);
    total + (if end >= first then end - first else 0) * 4096
  }

  lemma PowIsPages(n: nat)
    requires IsPow2(n) && n >= 4096
    ensures n % 4096 == 0
  {
    assert Pow2(12) == 4096 by {
      assert Pow2(4) == 16;
      assert Pow2(8) == 256;
    }
    Compare(4096, n);
  }

  lemma LastPage(base: nat, t: nat)
    requires base % 4096 == 0 && t > 0
    ensures ((base + t - 1) / 4096 + 1) * 4096 == base + (if t % 4096 == 0 then t else t / 4096 * 4096 + 4096)
  {
  }

  lemma TotalShape(total: nat, size: nat, align: nat)
    requires HeapTotal(total) && IsPow2(align)
    ensures align > 0 && total % 4096 == 0
    ensures var t := NewTotal(total, size, align);
      t > total && IsPow2(t) && HeapTotal(Max(4096, t)) && (t % 4096 == 0 || (total == 0 && t < 4096))
  {
    PowPositive(align);
    NewTotalIs(total, size, align);
    hide IsPow2, NewTotal, MinToAdd;
    var min, t := MinToAdd(total, size, align), NewTotal(total, size, align);
    Doubled(min);
    PageIsPow2();
    if total > 0 {
      Doubled(total);
      PowIsPages(total);
    }
    if t >= 4096 {
      PowIsPages(t);
    }
  }

  /** One growth keeps the shape of the total and adds exactly the pages from the old end to the new end. */
  lemma GrowthInvariant(base: nat, total: nat, size: nat, align: nat)
    requires base % 4096 == 0 && HeapTotal(total) && IsPow2(align)
    ensures align > 0
    ensures var t := Grown(base, total, size, align);
      && HeapTotal(t) && t > total
      && t == Max(4096, NewTotal(total, size, align))
      && FirstAdded(base, total) * 4096 == base + total
      && EndAdded(base, total, size, align) * 4096 == base + t
  {
    hide HeapTotal, NewTotal, IsPow2;
    TotalShape(total, size, align);
    var t := NewTotal(total, size, align);
    LastPage(base, t);
    assert (base + total) % 4096 == 0;
    var first, end := FirstAdded(base, total), EndAdded(base, total, size, align);
    assert end == (base + t - 1) / 4096 + 1;
    hide FirstAdded, EndAdded;
    Difference(first, end, base, total, Max(4096, t));
  }

  lemma Difference(first: nat, end: nat, base: nat, total: nat, t: nat)
    requires first * 4096 == base + total && end * 4096 == base + t && t > total
    ensures end >= first && total + (end - first) * 4096 == t
  {
  }

  lemma PageIsPow2()
    ensures IsPow2(4096)
  {
    assert Pow2(4) == 16;
    assert Pow2(8) == 256;
    assert Pow2(12) == 4096;
  }

  // ------------------------------------------------------------- serving the request

  /** A naturally aligned block of `b` bytes fits into [from, to). */
  ghost predicate Fits(from: nat, to: nat, b: nat)
    requires b > 0
  {
    exists a: nat :: a % b == 0 && from <= a && a + b <= to
  }

  /** The block a buddy allocator hands out for a layout. */
  function BlockSize(size: nat, align: nat): (b: nat) { Max(NextPow2(size), align) }

  lemma BlockIsPow2(size: nat, align: nat)
    requires IsPow2(align)
    ensures IsPow2(BlockSize(size, align)) && BlockSize(size, align) > 0
  {
    NextPow2Is(size);
    PowPositive(BlockSize(size, align));
  }

  /** With a non-empty heap the minimum to add is at least the block. */
  lemma MinCoversBlock(total: nat, size: nat, align: nat)
    requires HeapTotal(total) && total > 0 && IsPow2(align) && size >= 1
    ensures align > 0 && MinToAdd(total, size, align) >= NextPow2(size)
    ensures align > total ==> MinToAdd(total, size, align) >= align && MinToAdd(total, size, align) > total
  {
    PowPositive(align);
    NextPow2Is(size);
    var padded := AlignUp(total, align);
    Compare(align, total);
    Compare(total, align);
    if align <= total {
      AlignUpAligned(total, align);
    } else {
      AlignUpSmall(total, align);
    }
    assert padded >= total;
    var need := padded - total + size;
    NextPow2Is(need);
    hide NextPow2, IsPow2;
    assert MinToAdd(total, size, align) == NextPow2(need);
    if align > total {
      Compare(NextPow2(need), align);
    }
  }

  lemma AddMultiple(base: nat, a: nat, b: nat)
    requires b > 0 && base % b == 0 && a % b == 0
    ensures (base + a) % b == 0
  {
    var p, q := base / b, a / b;
    assert base == p * b && a == q * b;
    assert base + a == (p + q) * b;
    DivUnique(base + a, b, p + q, 0);
  }

  /** An aligned block inside the heap's offsets is an aligned block of addresses. */
  lemma Shifted(base: nat, from: nat, to: nat, a: nat, b: nat)
    requires b > 0 && base % b == 0 && a % b == 0 && from <= a && a + b <= to
    ensures Fits(base + from, base + to, b)
  {
    AddMultiple(base, a, b);
  }

  /**
    Growth serves the request.  The range added contains a naturally aligned
    block for the layout exactly if the heap was not empty, or the alignment is
    no larger than a page and twice the rounded size, whichever is larger.
   */
  lemma GrowthServes(base: nat, total: nat, size: nat, align: nat)
    requires base % 4096 == 0 && HeapTotal(total) && IsPow2(align) && size >= 1
    requires BlockSize(size, align) > 0 && base % BlockSize(size, align) == 0
    ensures align > 0
    ensures Fits(base + total, base + Grown(base, total, size, align), BlockSize(size, align)) <==>
            total > 0 || align <= Max(4096, 2 * NextPow2(size))
  {
    GrowthInvariant(base, total, size, align);
    if total > 0 {
      ServesNonEmpty(base, total, size, align);
    } else {
      ServesEmpty(base, size, align);
    }
  }

  lemma ServesNonEmpty(base: nat, total: nat, size: nat, align: nat)
    requires base % 4096 == 0 && HeapTotal(total) && total > 0 && IsPow2(align) && size >= 1
    requires BlockSize(size, align) > 0 && base % BlockSize(size, align) == 0
    ensures align > 0 && Fits(base + total, base + Grown(base, total, size, align), BlockSize(size, align))
  {
    hide NextPow2, IsPow2, Fits, AlignUp;
    GrowthInvariant(base, total, size, align);
    NewTotalIs(total, size, align);
    MinCoversBlock(total, size, align);
    BlockIsPow2(size, align);
    var min, b := MinToAdd(total, size, align), BlockSize(size, align);
    var t := Grown(base, total, size, align);
    hide Grown, MinToAdd, NewTotal;
    var at := Max(total, min);
    Compare(b, at);
    assert t >= 2 * at;
    Shifted(base, total, t, at, b);
  }

  lemma ServesEmpty(base: nat, size: nat, align: nat)
    requires base % 4096 == 0 && IsPow2(align) && size >= 1
    requires BlockSize(size, align) > 0 && base % BlockSize(size, align) == 0
    ensures align > 0 && Fits(base, base + Grown(base, 0, size, align), BlockSize(size, align)) <==>
      align <= Max(4096, 2 * NextPow2(size))
  {
    PowPositive(align);
    GrowthInvariant(base, 0, size, align);
    NewTotalIs(0, size, align);
    assert AlignUp(0, align) == 0 by { DivUnique(0, align, 0, 0); AlignUpAligned(0, align); }
    var t, b := Grown(base, 0, size, align), BlockSize(size, align);
    assert t == Max(4096, 2 * NextPow2(size));
    hide Grown, NextPow2, IsPow2, AlignUp, MinToAdd, NewTotal;
    if b <= t {
      DivUnique(0, b, 0, 0);
      Shifted(base, 0, t, 0, b);
    }
  }

  /** The first growth of an empty heap, asked for one byte aligned to 16 KiB, adds a page only. */
  lemma FirstGrowthCanMiss()
    ensures !Fits(KERNEL_HEAP_START, KERNEL_HEAP_START + Grown(KERNEL_HEAP_START, 0, 1, 16384), BlockSize(1, 16384))
  {
    PageIsPow2();
    Doubled(4096);
    Doubled(8192);
    NextPow2Of(1, 1) by { assert 1 == Pow2(0); }
    assert KERNEL_HEAP_START % 16384 == 0;
    GrowthServes(KERNEL_HEAP_START, 0, 1, 16384);
  }

  // ------------------------------------------------------------------- many growths

  datatype Layout = Layout(size: nat, align: nat)

  ghost predicate Layouts(ls: seq<Layout>)
  {
    forall k :: 0 <= k < |ls| ==> IsPow2(ls[k].align)
  }

  /** The heap's total after it grew for each of the layouts in turn. */
  ghost function TotalAfter(base: nat, ls: seq<Layout>): (t: nat)
    requires Layouts(ls)
  {
    if ls == [] then 0
    else
      var l := ls[|ls| - 1];
      PowPositive(l.align);
      Grown(base, TotalAfter(base, ls[..|ls| - 1]), l.size, l.align)
  }

  lemma {:induction false} TotalInvariant(base: nat, ls: seq<Layout>)
    requires base % 4096 == 0 && Layouts(ls)
    ensures HeapTotal(TotalAfter(base, ls)) && TotalAfter(base, ls) % 4096 == 0
  {
    if ls != [] {
      TotalInvariant(base, ls[..|ls| - 1]);
      var l := ls[|ls| - 1];
      GrowthInvariant(base, TotalAfter(base, ls[..|ls| - 1]), l.size, l.align);
      hide Grown;
      PowIsPages(TotalAfter(base, ls));
    }
  }

  /** Page number `n` is mapped by the `k`th growth. */
  ghost predicate MappedBy(base: nat, ls: seq<Layout>, k: nat, n: nat)
    requires Layouts(ls) && k < |ls|
  {
    base + TotalAfter(base, ls[..k]) <= n * 4096 < base + TotalAfter(base, ls[..k + 1])
  }

  lemma {:induction false} TotalsGrow(base: nat, ls: seq<Layout>, j: nat, k: nat)
    requires base % 4096 == 0 && Layouts(ls) && j <= k <= |ls|
    ensures TotalAfter(base, ls[..j]) <= TotalAfter(base, ls[..k])
    decreases k
  {
    if j < k {
      TotalsGrow(base, ls, j, k - 1);
      assert ls[..k][..k - 1] == ls[..k - 1];
      TotalInvariant(base, ls[..k - 1]);
      GrowthInvariant(base, TotalAfter(base, ls[..k - 1]), ls[k - 1].size, ls[k - 1].align);
    }
  }

  /** No page is mapped by two growths. */
  lemma MappedOnce(base: nat, ls: seq<Layout>, j: nat, k: nat, n: nat)
    requires base % 4096 == 0 && Layouts(ls) && j < k < |ls| && MappedBy(base, ls, j, n)
    ensures !MappedBy(base, ls, k, n)
  {
    TotalsGrow(base, ls, j + 1, k);
  }

  lemma {:induction false} FindGrowth(base: nat, ls: seq<Layout>, n: nat) returns (k: nat)
    requires Layouts(ls) && base <= n * 4096 < base + TotalAfter(base, ls)
    ensures k < |ls| && MappedBy(base, ls, k, n)
  {
    hide Grown;
    var m := |ls| - 1;
    var rest := ls[..m];
    assert ls[..m + 1] == ls;
    if n * 4096 >= base + TotalAfter(base, rest) {
      k := m;
    } else {
      k := FindGrowth(base, rest, n);
      assert rest[..k] == ls[..k] && rest[..k + 1] == ls[..k + 1];
    }
  }

  /** The growths tile the heap: a page is mapped by some growth exactly if it lies in [base, base + total). */
  lemma GrowthsTile(base: nat, ls: seq<Layout>, n: nat)
    requires base % 4096 == 0 && Layouts(ls)
    ensures (exists k: nat :: k < |ls| && MappedBy(base, ls, k, n)) <==> base <= n * 4096 < base + TotalAfter(base, ls)
  {
    hide Grown, TotalAfter;
    if k: nat :| k < |ls| && MappedBy(base, ls, k, n) {
      assert ls[..|ls|] == ls;
      TotalsGrow(base, ls, k + 1, |ls|);
    }
    if base <= n * 4096 < base + TotalAfter(base, ls) {
      var k := FindGrowth(base, ls, n);
    }
  }

  /**
    The kernel heap ends at or below the AP stacks exactly while its total is at
    most 2^39 bytes; likewise in user space.
   */
  lemma HeapRegions(total: nat)
    ensures KERNEL_HEAP_START + total <= KERNEL_AP_STACKS <==> total <= 0x80_0000_0000
    ensures USER_HEAP_START + total <= USER_END <==> total <= 0x80_0000_0000 - 0x2_0000_0000
  {
  }
}
