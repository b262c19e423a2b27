/**
  Mapping the AP stacks (`allocate_stacks` in kernel/src/smp.rs): the pages that
  ApStartup's stack pointers rely on, with an unmapped guard page below each
  stack.
 */
module ApStacks {
  import opened Words
  import opened Addresses
  import opened PhysicalMemory
  import opened PageTables
  import opened MemoryOps
  import opened AddressSpaces
  import opened Programs
  import opened ApStartup
  import opened Memory

  const FIRST: nat := KERNEL_AP_STACKS / 4096

  /** Pages per core, guard included. */
  const SPAN: nat := 1025

  /** Of the pages of the first `n` cores, all but the first of every 1025. */
  predicate StackPage(q: Page, n: nat)
  {
    var k := NumberOf(q);
    FIRST <= k < FIRST + n * SPAN && (k - FIRST) % SPAN != 0
  }

  /** The pages of a stack are stack pages, and its guard page is not. */
  lemma StackPageIs(q: Page, i: nat, n: nat)
    requires i < n
    ensures LowOf(i) <= NumberOf(q) * 4096 < EndOf(i) ==> StackPage(q, n)
    ensures NumberOf(q) * 4096 == GuardOf(i) ==> !StackPage(q, n)
  {
    hide NumberOf;
    var m, g := NumberOf(q), FIRST + i * 1025;
    assert GuardOf(i) == g * 4096 && EndOf(i) == (g + 1025) * 4096 && LowOf(i) == (g + 1) * 4096;
    assert i * 1025 + 1025 <= n * 1025;
    if g <= m < g + 1025 {
      Remainder(i, m - g);
    }
  }

  /** And there are no others. */
  lemma StackPageOnly(q: Page, n: nat)
    ensures StackPage(q, n) <==> exists i: nat :: i < n && LowOf(i) <= NumberOf(q) * 4096 < EndOf(i)
  {
    hide NumberOf;
    if i: nat :| i < n && LowOf(i) <= NumberOf(q) * 4096 < EndOf(i) {
      StackPageIs(q, i, n);
    }
    if StackPage(q, n) {
      var m := NumberOf(q) - FIRST;
      var i := m / 1025;
      assert m == i * 1025 + m % 1025 && m < n * 1025;
      assert i < n;
      assert GuardOf(i) == (FIRST + i * 1025) * 4096;
      assert LowOf(i) <= NumberOf(q) * 4096 < EndOf(i);
    }
  }

  lemma Remainder(i: nat, r: nat)
    requires r < 1025
    ensures (i * 1025 + r) % 1025 == r
  {
  }

  /** The first page of the stack of core `i`. */
  function LowPage(i: nat): (n: nat) { FIRST + i * SPAN + 1 }

  lemma NextStack(q: Page, i: nat)
    ensures StackPage(q, i + 1) <==> StackPage(q, i) || LowPage(i) <= NumberOf(q) < LowPage(i) + PAGES_PER_CORE
  {
    hide NumberOf;
    var k := NumberOf(q);
    assert (i + 1) * 1025 == i * 1025 + 1025;
    if FIRST + i * 1025 <= k < FIRST + i * 1025 + 1025 {
      Remainder(i, k - FIRST - i * 1025);
    }
  }

  ghost predicate StackPageAs(before: Ram, ram: Ram, root: Frame, n: nat, q: Page)
  {
    AddedOrKept(before, ram, root, q, StackPage(q, n), DATA_FLAGS)
  }

  /** The stack pages of `n` cores are mapped writable and not executable; all others are as in `before`. */
  ghost predicate StacksMapped(before: Ram, ram: Ram, root: Frame, n: nat)
  {
    forall q: Page :: StackPageAs(before, ram, root, n, q)
  }

  /** The stacks of `n` cores, one after the other, each above its guard page. */
  function StacksProgram(c: Core, n: nat): (prog: seq<Action>)
  {
    if n == 0 then [] else StacksProgram(c, n - 1) + MapRange(c, false, LowPage(n - 1), PAGES_PER_CORE, DATA_FLAGS)
  }

  lemma StackAdded(before: Ram, mid: Ram, ram: Ram, root: Frame, i: nat)
    requires StacksMapped(before, mid, root, i)
    requires RangeMapped(mid, ram, root, LowPage(i), LowPage(i) + PAGES_PER_CORE, DATA_FLAGS)
    ensures StacksMapped(before, ram, root, i + 1)
  {
    hide StackPage, Translate, NumberOf;
    var n := i + 1;
    forall q: Page ensures StackPageAs(before, ram, root, n, q) {
      NextStack(q, i);
      assert StackPageAs(before, mid, root, i, q);
      assert PageMapped(mid, ram, root, LowPage(i), LowPage(i) + PAGES_PER_CORE, DATA_FLAGS, q);
    }
  }

  lemma StacksInKernel(i: nat, q: Page)
    requires i < MAX_APS
    ensures LowPage(i) + PAGES_PER_CORE <= PAGES
    ensures InRange(q, LowPage(i), PAGES_PER_CORE) ==> Kernel(q.l4)
  {
    assert i * 1025 + 1025 <= 255 * 1025;
    assert KERNEL_START == 100 * L4_SPAN && KERNEL_AP_STACKS == 109 * L4_SPAN;
  }

  /** The stacks performed to their end are mapped; they are never out of range. */
  lemma {:induction false} StacksPerformed(s: State, root: Frame, c: Core, n: nat)
    requires PageTables.Inv(s) && IsRoot(s, root) && n <= MAX_APS
    ensures var r := Perform(s, root, StacksProgram(c, n));
      && PageTables.Inv(r.state) && IsRoot(r.state, root) && r.failure != Some(OutOfRange)
      && (r.failure.None? ==> StacksMapped(s.ram, r.state.ram, root, n))
  {
    hide PageTables.Inv, IsRoot, Perform, MapRange, StacksMapped, RangeMapped, InRange, LowPage;
    if n == 0 {
      PerformNothing(s, root);
      NothingMapped(s.ram, root);
    } else {
      StacksPerformed(s, root, c, n - 1);
      var r := Perform(s, root, StacksProgram(c, n - 1));
      PerformConcat(s, root, StacksProgram(c, n - 1), MapRange(c, false, LowPage(n - 1), PAGES_PER_CORE, DATA_FLAGS));
      if r.failure.None? {
        forall q: Page ensures InRange(q, LowPage(n - 1), PAGES_PER_CORE) ==> Kernel(q.l4) {
          StacksInKernel(n - 1, q);
        }
        RangeFits(n - 1);
        RangePerformed(r.state, root, c, false, LowPage(n - 1), PAGES_PER_CORE, DATA_FLAGS);
        KernelRangeFails(r.state, root, c, LowPage(n - 1), PAGES_PER_CORE, DATA_FLAGS);
        var r' := Perform(r.state, root, MapRange(c, false, LowPage(n - 1), PAGES_PER_CORE, DATA_FLAGS));
        if r'.failure.None? {
          StackAdded(s.ram, r.state.ram, r'.state.ram, root, n - 1);
        }
      }
    }
  }

  lemma RangeFits(i: nat)
    requires i < MAX_APS
    ensures LowPage(i) + PAGES_PER_CORE <= PAGES
  {
    StacksInKernel(i, PageOf(0));
  }

  lemma NothingMapped(ram: Ram, root: Frame)
    ensures StacksMapped(ram, ram, root, 0)
  {
    hide Translate;
  }

  lemma {:induction false} StacksPrefix(c: Core, n: nat, k: nat)
    requires k <= n
    ensures var p := StacksProgram(c, k); |p| <= |StacksProgram(c, n)| && StacksProgram(c, n)[..|p|] == p
  {
    hide MapRange;
    if k < n {
      StacksPrefix(c, n - 1, k);
    }
  }

  /**
    `allocate_stacks`: the outer loop skips a guard page for each core, the
    inner loop maps its stack.  The range assertion never fails.
   */
  method AllocateStacks(m: Memory, core: Core, root: Frame, apCount: nat) returns (failure: Option<Failure>)
    requires m.Valid() && IsRoot(m.S(), root) && apCount <= MAX_APS
    modifies m
    ensures m.Valid() && IsRoot(m.S(), root)
    ensures Progress(m.S(), failure) == Perform(old(m.S()), root, StacksProgram(core, apCount))
    ensures failure.None? ==> StacksMapped(old(m.ram), m.ram, root, apCount)
    ensures failure != Some(OutOfRange)
  {
    hide PageTables.Inv, IsRoot, StacksMapped, Perform, MapRange;
    var virtAddr := KERNEL_AP_STACKS;
    ghost var s0 := m.S();
    PerformNothing(s0, root);
    StacksPerformed(s0, root, core, apCount);
    for i := 0 to apCount
      invariant m.Valid() && IsRoot(m.S(), root) && virtAddr == (FIRST + i * 1025) * 4096
      invariant Progress(m.S(), None) == Perform(s0, root, StacksProgram(core, i))
    {
      virtAddr := virtAddr + 4096;
      PerformConcat(s0, root, StacksProgram(core, i), MapRange(core, false, LowPage(i), PAGES_PER_CORE, DATA_FLAGS));
      failure := MapPages(m, core, false, root, virtAddr / 4096, PAGES_PER_CORE, DATA_FLAGS);
      if failure.Some? {
        StacksPrefix(core, apCount, i + 1);
        PerformStops(s0, root, StacksProgram(core, apCount), |StacksProgram(core, i + 1)|);
        return;
      }
      virtAddr := virtAddr + PAGES_PER_CORE * 4096;
    }
    failure := None;
  }

  /** No action of the run maps page `q` or changes its flags. */
  predicate NeverProvided(run: seq<Action>, q: Page) { forall j :: 0 <= j < |run| ==> !Provides(run[j], q) }

  /**
    The stack of an AP.  Once `allocate_stacks` has succeeded, then in every
    interleaving of the APs and after every run of the memory system that does
    not unmap or re-flag a stack page, the stack of an AP that drew an index is
    mapped writable and not executable from its lowest page to the page of its
    stack pointer; and the guard page below it stays unmapped if nothing maps it.
   */
  lemma OwnStackMapped(n: nat, turns: seq<Turn>, k: nat, before: Ram, y: System, run: seq<Action>, root: Frame)
    requires ApStartup.Legal(n, turns) && k < n && HasIndex(ApStartup.Run(n, turns).aps[k])
    requires SystemInv(y) && IsRoot(y.mem, root) && StacksMapped(before, y.mem.ram, root, n)
    requires AddressSpaces.Legal(y, run)
    requires forall j, q: Page :: 0 <= j < |run| && StackPage(q, n) ==> !Alters(run[j], q)
    ensures var a := ApStartup.Run(n, turns).aps[k]; var ram := AddressSpaces.Run(y, run).mem.ram;
      && (forall q: Page :: LowOf(a.index) <= NumberOf(q) * 4096 < EndOf(a.index) ==>
            Translate(ram, root, q).Some? && Translate(ram, root, q).value.flags == Flags(true, false, true))
      && (forall q: Page ::
            NumberOf(q) * 4096 == GuardOf(a.index) && Translate(before, root, q).None? && NeverProvided(run, q) ==>
            Translate(ram, root, q).None?)
      && (!a.Indexed? ==> LowOf(a.index) <= a.sp == EndOf(a.index) - 1)
  {
    hide ApStartup.Run, AddressSpaces.Run, AddressSpaces.Legal, SystemInv, IsRoot, NumberOf, Translate, StackPage,
      LowOf, EndOf, GuardOf, Alters, Provides;
    StartupSafe(n, turns);
    var i, ram := ApStartup.Run(n, turns).aps[k].index, AddressSpaces.Run(y, run).mem.ram;
    forall q: Page | LowOf(i) <= NumberOf(q) * 4096 < EndOf(i)
      ensures Translate(ram, root, q).Some? && Translate(ram, root, q).value.flags == Flags(true, false, true)
    {
      StackPageIs(q, i, n);
      assert StackPageAs(before, y.mem.ram, root, n, q);
      PageStays(y, run, root, q);
    }
    forall q: Page | NumberOf(q) * 4096 == GuardOf(i) && Translate(before, root, q).None? && NeverProvided(run, q)
      ensures Translate(ram, root, q).None?
    {
      StackPageIs(q, i, n);
      assert StackPageAs(before, y.mem.ram, root, n, q);
      PageStays(y, run, root, q);
    }
  }
}
