/**
  Straight-line programs of one core: lists of actions, performed one after the
  other up to the first that fails, and the loops that perform them.  Loading a
  program, growing a heap and mapping the AP stacks are such programs.
 */
module Programs {
  import opened Words
  import opened PhysicalMemory
  import opened PageTables
  import opened MemoryOps
  import opened Permissions
  import opened AddressSpaces
  import opened Addresses
  import opened Memory

  // ------------------------------------------------------------------- page arithmetic

  const PAGES: nat := 0x10_0000_0000

  function NumberOf(q: Page): (n: nat) { ((q.l4 * 512 + q.l3) * 512 + q.l2) * 512 + q.l1 }

  lemma NumberOfPage(n: nat, q: Page)
    requires n < PAGES
    ensures PageOf(n * 4096) == q <==> NumberOf(q) == n
    ensures NumberOf(q) < PAGES
  {
    DecomposeBuild(q.l4, q.l3, q.l2, q.l1, 0);
    BuildDecompose(n * 4096);
    assert StartOf(q) == NumberOf(q) * 4096;
    assert StartOf(PageOf(n * 4096)) == NumberOf(PageOf(n * 4096)) * 4096;
  }

  lemma NumberOfAddress(a: nat, q: Page, off: nat)
    requires a < PAGES * 4096 && off < 4096
    ensures PageOf(a) == q && a % 4096 == off <==> NumberOf(q) * 4096 + off == a
  {
    NumberOfPage(a / 4096, q);
    assert PageOf(a / 4096 * 4096) == PageOf(a);
  }

  /** Which of `n` pages, counted from page number `first`, is `q`? */
  predicate InRange(q: Page, first: nat, n: nat) { first <= NumberOf(q) < first + n }

  /** `map_ram_user` or `map_ram_kernel`. */
  function MapOne(c: Core, user: bool, p: Page, fl: Flags): (a: Action)
  {
    if user then MapUserPage(c, p, fl) else MapKernelPage(c, p, fl)
  }

  /** Mapping `n` pages from page number `first` on, one by one. */
  function MapRange(c: Core, user: bool, first: nat, n: nat, fl: Flags): (a: seq<Action>)
  {
    if n == 0 then [] else MapRange(c, user, first, n - 1, fl) + [MapOne(c, user, PageOf((first + n - 1) * 4096), fl)]
  }

  function FlagRange(c: Core, first: nat, n: nat, fl: Flags): (a: seq<Action>)
  {
    if n == 0 then [] else FlagRange(c, first, n - 1, fl) + [SetFlags(c, PageOf((first + n - 1) * 4096), fl)]
  }

  /** The first `n` bytes of `data`, stored one by one from address `base`. */
  function StoreRange(c: Core, base: nat, data: seq<Byte>, n: nat): (a: seq<Action>)
    requires n <= |data|
  {
    if n == 0 then []
    else StoreRange(c, base, data, n - 1) + [Store(c, PageOf(base + n - 1), (base + n - 1) % 4096, data[n - 1])]
  }

  /** The range assertions: a page outside its range is refused, and one inside is never refused for its range. */
  lemma KernelRangeChecked(s: State, root: Frame, a: nat, fl: Flags)
    requires Inv(s) && IsRoot(s, root) && a < 512 * L4_SPAN
    ensures var o := MapRamKernel(s, root, PageOf(a), fl);
      && (o.result == Err(OutOfRange) <==> !(KERNEL_START <= a < KERNEL_END))
      && (o.result == Err(OutOfRange) ==> o.state == s)
  {
    RangesAreSlots(a);
    NeverOutOfRange(s, root, PageOf(a), fl);
    hide PageOf, BuildAddr, Inv, MapRam;
  }

  lemma UserRangeChecked(s: State, root: Frame, a: nat, fl: Flags)
    requires Inv(s) && IsRoot(s, root) && a < 512 * L4_SPAN
    ensures var o := MapRamUser(s, root, PageOf(a), fl);
      && (o.result == Err(OutOfRange) <==> !(USER_START <= a < USER_END))
      && (o.result == Err(OutOfRange) ==> o.state == s)
  {
    RangesAreSlots(a);
    NeverOutOfRange(s, root, PageOf(a), fl.(user := true));
    hide PageOf, BuildAddr, Inv, MapRam;
  }

  lemma NeverOutOfRange(s: State, root: Frame, p: Page, fl: Flags)
    requires Inv(s) && IsRoot(s, root)
    ensures MapRam(s, root, p, fl).result != Err(OutOfRange)
  {
    hide Inv, MapRam, Missing, Obstructed, LeafUnused, Updates, OthersKept, Next, PathOf;
    MapRamMeets(s, root, p, fl);
  }

  // --------------------------------------------------------------------- performing

  /** The state that a panicking core leaves, or the one after the last action. */
  datatype Progress = Progress(state: State, failure: Option<Failure>)

  function ErrorOf(r: Result<Frame>): (f: Option<Failure>) { if r.Err? then Some(r.error) else None }

  /** Why an action panics, if it does; a store to a page that is not there or may not be written faults. */
  function FailureOf(s: State, root: Frame, a: Action): (f: Option<Failure>)
  {
    match a
    case MapUserPage(_, p, fl) => ErrorOf(MapRamUser(s, root, p, fl).result)
    case MapKernelPage(_, p, fl) => ErrorOf(MapRamKernel(s, root, p, fl).result)
    case SetFlags(_, p, fl) => ErrorOf(ChangeFlags(s, root, p, fl).result)
    case Store(_, p, _, _) => if MayWrite(s.ram, root, p) then None else Some(NotMapped)
    case _ => None
  }

  /** A store goes through exactly if all four entries allow writing, and otherwise changes nothing. */
  lemma StoresExactly(s: State, root: Frame, c: Core, p: Page, off: nat, b: Byte)
    ensures FailureOf(s, root, Store(c, p, off, b)).None? <==>
      Effective(s.ram, root, p).Some? && Effective(s.ram, root, p).value.writable
    ensures FailureOf(s, root, Store(c, p, off, b)).Some? ==> Effect(s, root, Store(c, p, off, b)) == s
  {
    hide Effective, Translate;
  }

  /** A list of actions, none of them interleaved, up to the first that fails. */
  function Perform(s: State, root: Frame, prog: seq<Action>): (r: Progress)
    decreases |prog|
  {
    if prog == [] then Progress(s, None)
    else
      var r := Perform(s, root, prog[..|prog| - 1]);
      var a := prog[|prog| - 1];
      if r.failure.None? then Progress(Effect(r.state, root, a), FailureOf(r.state, root, a)) else r
  }

  lemma PerformNothing(s: State, root: Frame)
    ensures Perform(s, root, []) == Progress(s, None)
  {
  }

  lemma PerformSnoc(s: State, root: Frame, prog: seq<Action>, a: Action)
    ensures var r := Perform(s, root, prog);
      Perform(s, root, prog + [a]) ==
        if r.failure.None? then Progress(Effect(r.state, root, a), FailureOf(r.state, root, a)) else r
  {
    hide Effect, FailureOf;
    assert (prog + [a])[..|prog|] == prog;
  }

  lemma {:induction false} PerformConcat(s: State, root: Frame, p: seq<Action>, q: seq<Action>)
    ensures var r := Perform(s, root, p);
      Perform(s, root, p + q) == if r.failure.None? then Perform(r.state, root, q) else r
    decreases |q|
  {
    hide Effect, FailureOf;
    if q == [] {
      assert p + q == p;
    } else {
      var init, a := q[..|q| - 1], q[|q| - 1];
      assert q == init + [a] && p + q == (p + init) + [a];
      PerformConcat(s, root, p, init);
      PerformSnoc(s, root, p + init, a);
      PerformSnoc(Perform(s, root, p).state, root, init, a);
    }
  }

  lemma PerformStops(s: State, root: Frame, prog: seq<Action>, k: nat)
    requires k <= |prog| && Perform(s, root, prog[..k]).failure.Some?
    ensures Perform(s, root, prog) == Perform(s, root, prog[..k])
  {
    assert prog == prog[..k] + prog[k..];
    PerformConcat(s, root, prog[..k], prog[k..]);
  }

  lemma {:induction false} MapRangePrefix(c: Core, user: bool, first: nat, n: nat, fl: Flags, k: nat)
    requires k <= n
    ensures |MapRange(c, user, first, n, fl)| == n
    ensures MapRange(c, user, first, n, fl)[..k] == MapRange(c, user, first, k, fl)
  {
    hide PageOf;
    if n > 0 {
      MapRangePrefix(c, user, first, n - 1, fl, if k < n then k else n - 1);
    }
  }

  lemma {:induction false} FlagRangePrefix(c: Core, first: nat, n: nat, fl: Flags, k: nat)
    requires k <= n
    ensures |FlagRange(c, first, n, fl)| == n && FlagRange(c, first, n, fl)[..k] == FlagRange(c, first, k, fl)
  {
    hide PageOf;
    if n > 0 {
      FlagRangePrefix(c, first, n - 1, fl, if k < n then k else n - 1);
    }
  }

  lemma {:induction false} StoreRangePrefix(c: Core, base: nat, data: seq<Byte>, n: nat, k: nat)
    requires k <= n <= |data|
    ensures |StoreRange(c, base, data, n)| == n && StoreRange(c, base, data, n)[..k] == StoreRange(c, base, data, k)
  {
    hide PageOf;
    if n > 0 {
      StoreRangePrefix(c, base, data, n - 1, if k < n then k else n - 1);
    }
  }

  lemma MapOneKeeps(s: State, root: Frame, c: Core, user: bool, p: Page, fl: Flags)
    requires Inv(s) && IsRoot(s, root)
    ensures var s' := Effect(s, root, MapOne(c, user, p, fl)); Inv(s') && IsRoot(s', root) && s'.pool == s.pool
  {
    hide Inv, MapRam, SameView, Next;
    MapRamKeeps(s, root, p, if user then fl.(user := true) else fl);
  }

  /** Mapping a range of pages under the lock; the first page that cannot be mapped panics. */
  method MapPages(m: Memory, core: Core, user: bool, root: Frame, first: nat, n: nat, fl: Flags)
    returns (failure: Option<Failure>)
    requires m.Valid() && IsRoot(m.S(), root)
    modifies m
    ensures m.Valid() && IsRoot(m.S(), root)
    ensures Progress(m.S(), failure) == Perform(old(m.S()), root, MapRange(core, user, first, n, fl))
  {
    hide Inv, EntryAt, PageOf, IsRoot, MemoryOps.MapRamUser, MemoryOps.MapRamKernel, Perform;
    ghost var s0 := m.S();
    PerformNothing(s0, root);
    for k := 0 to n
      invariant m.Valid() && IsRoot(m.S(), root)
      invariant Progress(m.S(), None) == Perform(s0, root, MapRange(core, user, first, k, fl))
    {
      var page := PageOf((first + k) * 4096);
      MapOneKeeps(m.S(), root, core, user, page, fl);
      PerformSnoc(s0, root, MapRange(core, user, first, k, fl), MapOne(core, user, page, fl));
      failure := MapOnePage(m, core, user, root, page, fl);
      if failure.Some? {
        MapRangePrefix(core, user, first, n, fl, k + 1);
        PerformStops(s0, root, MapRange(core, user, first, n, fl), k + 1);
        return;
      }
    }
    failure := None;
  }

  method MapOnePage(m: Memory, core: Core, user: bool, root: Frame, page: Page, fl: Flags)
    returns (failure: Option<Failure>)
    requires m.Valid() && IsRoot(m.S(), root)
    modifies m
    ensures m.Valid()
    ensures m.S() == Effect(old(m.S()), root, MapOne(core, user, page, fl))
    ensures failure == FailureOf(old(m.S()), root, MapOne(core, user, page, fl))
  {
    hide Inv, MemoryOps.MapRamUser, MemoryOps.MapRamKernel;
    var r: Result<Frame>;
    if user {
      r := m.MapRamUser(root, page, fl);
    } else {
      r := m.MapRamKernel(root, page, fl);
    }
    failure := ErrorOf(r);
  }

  // ---------------------------------------------------------- what mapping a range does

  /** Page `q` was mapped with flags `fl` if it was to be, and otherwise translates as before. */
  predicate AddedOrKept(before: Ram, ram: Ram, root: Frame, q: Page, added: bool, fl: Flags)
  {
    var l := Translate(ram, root, q);
    if added then l.Some? && l.value.flags == fl else l == Translate(before, root, q)
  }

  /** The flags that a page is mapped with. */
  function FlagsFor(user: bool, fl: Flags): (f: Flags) { if user then fl.(user := true) else fl }

  /** Pages `first` up to `end` are mapped with flags `fl`; all others are as in `before`. */
  ghost predicate RangeMapped(before: Ram, ram: Ram, root: Frame, first: nat, end: nat, fl: Flags)
  {
    forall q: Page :: PageMapped(before, ram, root, first, end, fl, q)
  }

  predicate PageMapped(before: Ram, ram: Ram, root: Frame, first: nat, end: nat, fl: Flags, q: Page)
  {
    AddedOrKept(before, ram, root, q, first <= NumberOf(q) < end, fl)
  }

  lemma OneMapped(before: Ram, s: State, root: Frame, c: Core, user: bool, first: nat, n: nat, fl: Flags)
    requires Inv(s) && IsRoot(s, root) && first <= n < PAGES
    requires RangeMapped(before, s.ram, root, first, n, FlagsFor(user, fl))
    requires FailureOf(s, root, MapOne(c, user, PageOf(n * 4096), fl)).None?
    ensures var s' := Effect(s, root, MapOne(c, user, PageOf(n * 4096), fl));
      RangeMapped(before, s'.ram, root, first, n + 1, FlagsFor(user, fl))
  {
    hide PageOf, NumberOf, Inv, EntryAt, Next, L1Table, Translate, MapRam, Missing, Obstructed, LeafUnused;
    var p, end, f := PageOf(n * 4096), n + 1, FlagsFor(user, fl);
    MapRamMeets(s, root, p, f);
    var s' := Effect(s, root, MapOne(c, user, p, fl));
    forall q: Page ensures PageMapped(before, s'.ram, root, first, end, f, q) {
      NumberOfPage(n, q);
      assert PageMapped(before, s.ram, root, first, n, f, q);
    }
  }

  lemma NothingAdded(ram: Ram, root: Frame, first: nat, fl: Flags)
    ensures RangeMapped(ram, ram, root, first, first, fl)
  {
    hide Translate, NumberOf;
  }

  /** A range performed to its end is mapped, and nothing else changed. */
  lemma {:induction false} RangePerformed(s: State, root: Frame, c: Core, user: bool, first: nat, n: nat, fl: Flags)
    requires Inv(s) && IsRoot(s, root) && first + n <= PAGES
    ensures var r := Perform(s, root, MapRange(c, user, first, n, fl));
      && Inv(r.state) && IsRoot(r.state, root) && r.state.pool == s.pool
      && (r.failure.None? ==> RangeMapped(s.ram, r.state.ram, root, first, first + n, FlagsFor(user, fl)))
    decreases n
  {
    hide Inv, IsRoot, Perform, Effect, FailureOf, RangeMapped, PageOf, MapOne;
    if n == 0 {
      PerformNothing(s, root);
      NothingAdded(s.ram, root, first, FlagsFor(user, fl));
    } else {
      RangePerformed(s, root, c, user, first, n - 1, fl);
      var before := MapRange(c, user, first, n - 1, fl);
      var p := PageOf((first + n - 1) * 4096);
      PerformSnoc(s, root, before, MapOne(c, user, p, fl));
      var r := Perform(s, root, before);
      if r.failure.None? {
        MapOneKeeps(r.state, root, c, user, p, fl);
        if FailureOf(r.state, root, MapOne(c, user, p, fl)).None? {
          OneMapped(s.ram, r.state, root, c, user, first, first + n - 1, fl);
        }
      }
    }
  }

  // ------------------------------------------------------------------ how it can fail

  /** A range of kernel pages is never out of range. */
  lemma {:induction false} KernelRangeFails(s: State, root: Frame, c: Core, first: nat, n: nat, fl: Flags)
    requires Inv(s) && IsRoot(s, root) && first + n <= PAGES && forall q: Page :: InRange(q, first, n) ==> Kernel(q.l4)
    ensures Perform(s, root, MapRange(c, false, first, n, fl)).failure != Some(OutOfRange)
    decreases n
  {
    hide Inv, Perform, PageOf, NumberOf, MapRam, Missing, Obstructed, LeafUnused, Updates, OthersKept, Next;
    if n == 0 {
      PerformNothing(s, root);
    } else {
      KernelRangeFails(s, root, c, first, n - 1, fl);
      RangePerformed(s, root, c, false, first, n - 1, fl);
      var p := PageOf((first + n - 1) * 4096);
      NumberOfPage(first + n - 1, p);
      var before := MapRange(c, false, first, n - 1, fl);
      PerformSnoc(s, root, before, MapKernelPage(c, p, fl));
      assert InRange(p, first, n);
      MapRamMeets(Perform(s, root, before).state, root, p, fl);
    }
  }

  /** A range of user pages that are not mapped fails for lack of memory only, under a table this kernel made. */
  lemma {:induction false} UserRangeFails(s: State, root: Frame, c: Core, first: nat, n: nat, fl: Flags)
    requires Inv(s) && IsRoot(s, root) && root in s.pool && first + n <= PAGES
    requires forall q: Page :: InRange(q, first, n) ==> q.l4 == 0 && Translate(s.ram, root, q).None?
    ensures var r := Perform(s, root, MapRange(c, true, first, n, fl));
      r.failure.None? || r.failure == Some(OutOfMemory)
    decreases n
  {
    hide Inv, Perform, PageOf, NumberOf, Translate, MapRamUser, Missing, PathOf;
    if n == 0 {
      PerformNothing(s, root);
    } else {
      UserRangeFails(s, root, c, first, n - 1, fl);
      RangePerformed(s, root, c, true, first, n - 1, fl);
      var p := PageOf((first + n - 1) * 4096);
      NumberOfPage(first + n - 1, p);
      var before := MapRange(c, true, first, n - 1, fl);
      PerformSnoc(s, root, before, MapUserPage(c, p, fl));
      assert InRange(p, first, n);
      var r := Perform(s, root, before);
      if r.failure.None? {
        assert PageMapped(s.ram, r.state.ram, root, first, first + n - 1, FlagsFor(true, fl), p);
        MapUserExact(r.state, root, p, fl);
      }
    }
  }
}
