/**
  Growing a heap (the rescue closures in kernel/src/allocator.rs): the sizes of
  HeapGrowth, and the loop that maps the added pages.  The kernel's and the
  user's heap differ in their base and in the operation that maps a page.
 */
module Heap {
  import opened Words
  import opened Addresses
  import opened PhysicalMemory
  import opened PageTables
  import opened MemoryOps
  import opened AddressSpaces
  import opened Programs
  import opened HeapGrowth
  import opened Memory

  class Heap {
    const base: nat
    const user: bool
    var total: nat

    constructor (start: nat, forUser: bool)
      ensures base == start && user == forUser && total == 0
    {
      base, user, total := start, forUser, 0;
    }

    /** The rescue closure.  A page that cannot be mapped is a panic. */
    method Rescue(m: Memory, core: Core, root: Frame, size: nat, align: nat) returns (failure: Option<Failure>)
      requires m.Valid() && IsRoot(m.S(), root)
      requires base % 4096 == 0 && HeapTotal(total) && IsPow2(align) && align > 0
      requires base + Grown(base, total, size, align) <= PAGES * 4096
      modifies this, m
      ensures m.Valid() && IsRoot(m.S(), root) && HeapTotal(total)
      ensures Progress(m.S(), failure) ==
        Perform(old(m.S()), root, GrowthProgram(core, user, base, old(total), size, align))
      ensures failure.Some? ==> total == old(total)
      ensures failure.None? ==> total == Grown(base, old(total), size, align) > old(total)
      ensures failure.None? ==> forall e: nat, p: nat ::
        LeastMultiple(e, old(total), align) && LeastPow2(p, e - old(total) + size) ==>
          total == Max(4096, 2 * Max(old(total), p))
      ensures failure.None? ==>
        RangeMapped(old(m.ram), m.ram, root, (base + old(total)) / 4096, (base + total) / 4096,
          Flags(true, user, true))
    {
      hide PageTables.Inv, IsRoot, RangeMapped, HeapTotal, IsPow2, NewTotal, Perform, MapRange,
        LeastPow2;
      GrowthInvariant(base, total, size, align);
      var first, end := FirstAdded(base, total), EndAdded(base, total, size, align);
      RangePerformed(m.S(), root, core, user, first, end - first, DATA_FLAGS);
      failure := MapPages(m, core, user, root, first, end - first, DATA_FLAGS);
      forall e: nat, p: nat | LeastMultiple(e, total, align) && LeastPow2(p, e - total + size)
        ensures NewTotal(total, size, align) == 2 * Max(total, p)
      {
        NewTotalExactly(total, size, align, e, p);
      }
      if failure.None? {
        total := total + (end - first) * 4096;
      }
    }
  }

  /** The pages that one growth maps. */
  function GrowthProgram(c: Core, user: bool, base: nat, total: nat, size: nat, align: nat): (prog: seq<Action>)
    requires align > 0
  {
    var first, end := FirstAdded(base, total), EndAdded(base, total, size, align);
    MapRange(c, user, first, if end >= first then end - first else 0, DATA_FLAGS)
  }

  /** The pages that a sequence of growths maps, in order. */
  ghost function GrowthsProgram(c: Core, user: bool, base: nat, ls: seq<Layout>): (prog: seq<Action>)
    requires Layouts(ls)
  {
    if ls == [] then []
    else
      var init, l := ls[..|ls| - 1], ls[|ls| - 1];
      PowPositive(l.align);
      GrowthsProgram(c, user, base, init) + GrowthProgram(c, user, base, TotalAfter(base, init), l.size, l.align)
  }

  lemma {:induction false} MapRangeConcat(c: Core, user: bool, first: nat, n: nat, k: nat, fl: Flags)
    ensures MapRange(c, user, first, n, fl) + MapRange(c, user, first + n, k, fl) == MapRange(c, user, first, n + k, fl)
  {
    hide PageOf, MapOne;
    if k > 0 {
      MapRangeConcat(c, user, first, n, k - 1, fl);
    }
  }

  /** One growth maps the range from the old end to the new end. */
  lemma GrowthIsRange(c: Core, user: bool, base: nat, total: nat, size: nat, align: nat)
    requires base % 4096 == 0 && total % 4096 == 0 && HeapTotal(total) && IsPow2(align)
    ensures align > 0
    ensures var t := Grown(base, total, size, align);
      t > total && (t % 4096 == 0 ==>
        GrowthProgram(c, user, base, total, size, align)
        == MapRange(c, user, base / 4096 + total / 4096, t / 4096 - total / 4096, DATA_FLAGS))
  {
    hide Grown, FirstAdded, EndAdded, HeapTotal, IsPow2, NewTotal, MapRange;
    GrowthInvariant(base, total, size, align);
    var t := Grown(base, total, size, align);
    if t % 4096 == 0 {
      Quotients(base, total, t, FirstAdded(base, total), EndAdded(base, total, size, align));
    }
  }

  /** Any sequence of growths maps one contiguous range, from the heap's base to its end, each page once. */
  lemma {:induction false} GrowthsAreOneRange(c: Core, user: bool, base: nat, ls: seq<Layout>)
    requires base % 4096 == 0 && Layouts(ls)
    ensures TotalAfter(base, ls) % 4096 == 0
    ensures GrowthsProgram(c, user, base, ls) == MapRange(c, user, base / 4096, TotalAfter(base, ls) / 4096, DATA_FLAGS)
  {
    hide Grown, HeapTotal, IsPow2, GrowthProgram, MapRange;
    TotalInvariant(base, ls);
    if ls == [] {
      EmptyRange(c, user, base / 4096);
    } else {
      var init, l := ls[..|ls| - 1], ls[|ls| - 1];
      GrowthsAreOneRange(c, user, base, init);
      TotalInvariant(base, init);
      var old_, new_ := TotalAfter(base, init), TotalAfter(base, ls);
      GrowthIsRange(c, user, base, old_, l.size, l.align);
      MapRangeConcat(c, user, base / 4096, old_ / 4096, new_ / 4096 - old_ / 4096, DATA_FLAGS);
    }
  }

  lemma EmptyRange(c: Core, user: bool, first: nat)
    ensures MapRange(c, user, first, 0, DATA_FLAGS) == []
  {
  }

  lemma Quotients(base: nat, total: nat, t: nat, first: nat, end: nat)
    requires base % 4096 == 0 && total % 4096 == 0 && t % 4096 == 0 && total < t
    requires first * 4096 == base + total && end * 4096 == base + t
    ensures first == base / 4096 + total / 4096 && end - first == t / 4096 - total / 4096 && end >= first
  {
  }

  /** After any sequence of growths that succeed, exactly the pages of [base, base + total) were mapped. */
  lemma GrowthsMapped(s: State, root: Frame, c: Core, user: bool, base: nat, ls: seq<Layout>)
    requires PageTables.Inv(s) && IsRoot(s, root)
    requires base % 4096 == 0 && Layouts(ls) && base + TotalAfter(base, ls) <= PAGES * 4096
    ensures var r := Perform(s, root, GrowthsProgram(c, user, base, ls));
      && PageTables.Inv(r.state) && IsRoot(r.state, root)
      && (r.failure.None? ==>
            RangeMapped(s.ram, r.state.ram, root, base / 4096, (base + TotalAfter(base, ls)) / 4096,
              FlagsFor(user, DATA_FLAGS)))
  {
    hide PageTables.Inv, Perform, RangeMapped, MapRange, GrowthsProgram, TotalAfter;
    GrowthsAreOneRange(c, user, base, ls);
    RangePerformed(s, root, c, user, base / 4096, TotalAfter(base, ls) / 4096, DATA_FLAGS);
  }

  /** And a user heap's growths fail for lack of memory only, if nothing else was mapped in the heap's range. */
  lemma UserGrowthsFail(s: State, root: Frame, c: Core, base: nat, ls: seq<Layout>)
    requires PageTables.Inv(s) && IsRoot(s, root) && root in s.pool
    requires base % 4096 == 0 && Layouts(ls) && base + TotalAfter(base, ls) <= USER_END
    requires forall q: Page :: base / 4096 <= NumberOf(q) < (base + TotalAfter(base, ls)) / 4096 ==>
      Translate(s.ram, root, q).None?
    ensures var r := Perform(s, root, GrowthsProgram(c, true, base, ls));
      r.failure.None? || r.failure == Some(OutOfMemory)
  {
    hide PageTables.Inv, Perform, MapRange, GrowthsProgram, TotalAfter, Translate;
    GrowthsAreOneRange(c, true, base, ls);
    var n := TotalAfter(base, ls) / 4096;
    forall q: Page | InRange(q, base / 4096, n) ensures q.l4 == 0 && Translate(s.ram, root, q).None? {
    }
    UserRangeFails(s, root, c, base / 4096, n, DATA_FLAGS);
  }
}
