/**
  One core fills the user half of a table that only it has active, while the
  other cores do anything under other tables.  The theorem of this module is
  that at every moment the user half is what the first core's own actions add
  up to; Loader applies it to `prepare_application`.
 */
module Loading {
  import opened Words
  import opened PhysicalMemory
  import opened PageTables
  import opened MemoryOps
  import opened Permissions
  import opened AddressSpaces
  import opened Addresses
  import opened Programs

  // -------------------------------------------------- what a list of actions promises

  /** The user half of one table: flags of the mapped pages and the bytes known to be stored. */
  datatype Image = Image(flags: map<Page, Flags>, bytes: map<(Page, nat), Byte>)

  const EMPTY: Image := Image(map[], map[])

  function Step(m: Image, a: Action): (m': Image)
  {
    match a
    case MapUserPage(_, p, fl) => m.(flags := m.flags[p := fl.(user := true)])
    case SetFlags(_, p, fl) => m.(flags := m.flags[p := fl])
    case Store(_, p, off, b) => m.(bytes := m.bytes[(p, off) := b])
    case _ => m
  }

  function Expect(m: Image, prog: seq<Action>): (m': Image)
    decreases |prog|
  {
    if prog == [] then m else Expect(Step(m, prog[0]), prog[1..])
  }

  lemma {:induction false} ExpectConcat(m: Image, p: seq<Action>, q: seq<Action>)
    ensures Expect(m, p + q) == Expect(Expect(m, p), q)
    decreases |p|
  {
    if p == [] {
      assert p + q == q;
    } else {
      assert (p + q)[1..] == p[1..] + q;
      ExpectConcat(Step(m, p[0]), p[1..], q);
    }
  }

  // --------------------------------------------------------- what memory really holds

  ghost predicate PageHolds(s: State, root: Frame, m: Image, q: Page)
  {
    if q in m.flags
    then Translate(s.ram, root, q).Some? && Translate(s.ram, root, q).value.flags == m.flags[q]
         && Translate(s.ram, root, q).value.frame in s.pool && Effective(s.ram, root, q) == Some(m.flags[q])
    else Translate(s.ram, root, q).None?
  }

  ghost predicate ByteHolds(s: State, root: Frame, m: Image, q: Page, off: nat)
    requires (q, off) in m.bytes
  {
    && q in m.flags && off < 4096 && Translate(s.ram, root, q).Some?
    && var f := Translate(s.ram, root, q).value.frame; f in s.ram && s.ram[f][off] == m.bytes[(q, off)]
  }

  /** The user half of `root`, a table that this kernel made, is exactly the image `m`. */
  ghost predicate Holds(s: State, root: Frame, m: Image)
  {
    && root in s.pool
    && (forall q: Page :: q.l4 == 0 ==> PageHolds(s, root, m, q))
    && (forall q: Page :: q in m.flags ==> q.l4 == 0)
    && (forall q: Page, off: nat :: (q, off) in m.bytes ==> ByteHolds(s, root, m, q, off))
  }

  /** An action of the loading core; a failed one is a panic of the kernel. */
  predicate OwnAction(y: System, core: Core, root: Frame, a: Action)
  {
    && a.core == core && core in y.cr3 && y.cr3[core] == root
    && match a
       case MapUserPage(_, p, fl) => MapRamUser(y.mem, root, p, fl).result.Ok?
       case SetFlags(_, p, fl) => ChangeFlags(y.mem, root, p, fl).result.Ok? && p.l4 == 0
       case Store(_, p, off, _) => off < 4096 && p.l4 == 0 && MayWrite(y.mem.ram, root, p)
       case _ => false
  }

  /** An action of another core, under another table. */
  predicate OtherAction(y: System, core: Core, root: Frame, a: Action)
  {
    Enabled(y, a) && a.core != core && y.cr3[a.core] != root && (a.SwitchTo? ==> a.root != root)
  }

  lemma MapHolds(s: State, root: Frame, m: Image, p: Page, fl: Flags)
    requires Inv(s) && IsRoot(s, root) && Holds(s, root, m) && MapRamUser(s, root, p, fl).result.Ok?
    ensures p !in m.flags
    ensures Holds(MapRamUser(s, root, p, fl).state, root, m.(flags := m.flags[p := fl.(user := true)]))
  {
    hide EntryAt, NodeAt, Inv, Missing, Obstructed, Next, L1Table, MapRam, LeafUnused, Translate, Effective, Grows;
    MapRamMeets(s, root, p, fl.(user := true));
    if Translate(s.ram, root, p).Some? {
      MappedIsUsed(s.ram, root, p);
    }
    assert PageHolds(s, root, m, p);
    var o := MapRamUser(s, root, p, fl);
    var s', m' := o.state, m.(flags := m.flags[p := fl.(user := true)]);
    FreeIsManaged(s, o.result.value);
    MapRamGrows(s, root, p, fl.(user := true));
    MapUserEffective(s, root, p, fl);
    forall q: Page | q.l4 == 0 ensures PageHolds(s', root, m', q) {
      assert PageHolds(s, root, m, q);
      if q in m.flags {
        NotNarrowed(s, s', root, q);
      }
    }
    forall q: Page, off: nat | (q, off) in m'.bytes ensures ByteHolds(s', root, m', q, off) {
      assert ByteHolds(s, root, m, q, off);
      assert PageHolds(s, root, m, q);
      MappedOwner(s, root, q);
    }
  }

  lemma MappedIsUsed(ram: Ram, root: Frame, p: Page)
    requires Translate(ram, root, p).Some?
    ensures !LeafUnused(ram, root, p)
  {
  }

  lemma FreeIsManaged(s: State, f: Frame)
    requires Inv(s) && f in s.own && s.own[f].FreeFrame?
    ensures f in s.pool
  {
  }

  /** Flags `fl` take permissions away, other than execution, and add none. */
  predicate Within(fl: Flags, from: Flags) { (fl.writable ==> from.writable) && (fl.user ==> from.user) }

  lemma FlagsHold(s: State, root: Frame, m: Image, p: Page, fl: Flags)
    requires Inv(s) && IsRoot(s, root) && Holds(s, root, m) && ChangeFlags(s, root, p, fl).result.Ok?
    requires p in m.flags && Within(fl, m.flags[p])
    ensures Holds(ChangeFlags(s, root, p, fl).state, root, m.(flags := m.flags[p := fl]))
  {
    hide EntryAt, NodeAt, Inv, Next, L1Table, ChangeFlags, LeafUnused, Translate, Effective, Grows;
    ChangeFlagsMeets(s, root, p, fl);
    var o := ChangeFlags(s, root, p, fl);
    var s', m' := o.state, m.(flags := m.flags[p := fl]);
    assert PageHolds(s, root, m, p);
    ChangeFlagsGrows(s, root, p, fl);
    NarrowedExactly(s, root, p, fl);
    forall q: Page | q.l4 == 0 ensures PageHolds(s', root, m', q) {
      assert PageHolds(s, root, m, q);
      if q in m.flags && q != p {
        NotNarrowed(s, s', root, q);
      }
    }
    forall q: Page, off: nat | (q, off) in m'.bytes ensures ByteHolds(s', root, m', q, off) {
      assert ByteHolds(s, root, m, q, off);
      assert PageHolds(s, root, m, q);
      MappedOwner(s, root, q);
    }
  }

  lemma StoreHolds(s: State, root: Frame, m: Image, p: Page, off: nat, b: Byte)
    requires Inv(s) && IsRoot(s, root) && Holds(s, root, m) && off < 4096 && p.l4 == 0
    requires MayWrite(s.ram, root, p)
    ensures p in m.flags && Holds(StoreTo(s, root, p, off, b), root, m.(bytes := m.bytes[(p, off) := b]))
  {
    hide EntryAt, NodeAt, Inv, Next, L1Table, Translate, Effective, Grows;
    StoreInv(s, root, p, off, b);
    assert PageHolds(s, root, m, p);
    var s', m' := StoreTo(s, root, p, off, b), m.(bytes := m.bytes[(p, off) := b]);
    MappedOwner(s, root, p);
    StoreGrows(s, root, p, off, b);
    forall q: Page | q.l4 == 0 ensures PageHolds(s', root, m', q) {
      assert PageHolds(s, root, m, q);
      if q in m.flags {
        NotNarrowed(s, s', root, q);
      }
    }
    forall q: Page, o: nat | (q, o) in m'.bytes ensures ByteHolds(s', root, m', q, o) {
      if (q, o) != (p, off) {
        assert ByteHolds(s, root, m, q, o);
        assert PageHolds(s, root, m, q);
        MappedOwner(s, root, q);
        if q != p && Translate(s.ram, root, q).value.frame == Translate(s.ram, root, p).value.frame {
          OneMapping(s, root, p, root, q);
        }
      }
    }
  }

  /** A page whose flags are changed is there and allows what they allow. */
  predicate Prepared(m: Image, a: Action) { a.SetFlags? ==> a.page in m.flags && Within(a.flags, m.flags[a.page]) }

  /** One action of the loading core changes the image as `Step` says. */
  lemma OwnHolds(y: System, core: Core, root: Frame, m: Image, a: Action)
    requires SystemInv(y) && IsRoot(y.mem, root) && Holds(y.mem, root, m) && OwnAction(y, core, root, a)
    requires Prepared(m, a)
    ensures a.MapUserPage? ==> a.page !in m.flags
    ensures Enabled(y, a) && Holds(Apply(y, a).mem, root, Step(m, a)) && Apply(y, a).cr3 == y.cr3
  {
    hide Inv, Holds, MapRamUser, ChangeFlags, StoreTo, Translate, MayWrite;
    match a {
      case MapUserPage(_, p, fl) => MapHolds(y.mem, root, m, p, fl);
      case SetFlags(_, p, fl) => FlagsHold(y.mem, root, m, p, fl);
      case Store(_, p, off, b) => StoreHolds(y.mem, root, m, p, off, b);
      case _ =>
    }
  }

  /** The actions of other cores do not touch the image. */
  lemma OtherHolds(y: System, core: Core, root: Frame, m: Image, a: Action)
    requires SystemInv(y) && IsRoot(y.mem, root) && Holds(y.mem, root, m) && OtherAction(y, core, root, a)
    ensures Holds(Apply(y, a).mem, root, m)
    ensures core in y.cr3 ==> core in Apply(y, a).cr3 && Apply(y, a).cr3[core] == y.cr3[core]
  {
    hide Inv, Effect, Translate, Next, Effective, Grows;
    ActionKeeps(y, a);
    ActionGrows(y, a);
    var s, s' := y.mem, Apply(y, a).mem;
    forall q: Page | q.l4 == 0 ensures PageHolds(s', root, m, q) {
      assert SameView(s, s', root, q);
      assert PageHolds(s, root, m, q);
      if q in m.flags {
        NotNarrowed(s, s', root, q);
      }
    }
    forall q: Page, off: nat | (q, off) in m.bytes ensures ByteHolds(s', root, m, q, off) {
      assert ByteHolds(s, root, m, q, off);
      assert SameView(s, s', root, q);
      assert PageHolds(s, root, m, q);
    }
  }

  // -------------------------------------------------------------------- interleaving

  datatype Event = Own | Other(action: Action)

  /** Pages are mapped before they are written, and changes of flags only take away. */
  predicate Ordered(m: Image, prog: seq<Action>)
    decreases |prog|
  {
    prog == [] || (Prepared(m, prog[0]) && (prog[0].Store? ==> prog[0].page in m.flags) &&
      Ordered(Step(m, prog[0]), prog[1..]))
  }

  /** Every page that is mapped was not mapped before. */
  predicate FreshMaps(m: Image, prog: seq<Action>)
    decreases |prog|
  {
    prog == [] || ((prog[0].MapUserPage? ==> prog[0].page !in m.flags) && FreshMaps(Step(m, prog[0]), prog[1..]))
  }

  /** The loading core works through `prog` while other cores act in between. */
  ghost predicate Exec(y: System, core: Core, root: Frame, prog: seq<Action>, events: seq<Event>)
    decreases |events|
  {
    events == [] ||
    match events[0]
    case Own => prog != [] && OwnAction(y, core, root, prog[0]) &&
      Exec(Apply(y, prog[0]), core, root, prog[1..], events[1..])
    case Other(a) => OtherAction(y, core, root, a) && Exec(Apply(y, a), core, root, prog, events[1..])
  }

  ghost function After(y: System, core: Core, root: Frame, prog: seq<Action>, events: seq<Event>)
    : (r: (System, seq<Action>))
    requires Exec(y, core, root, prog, events)
    decreases |events|
  {
    if events == [] then (y, prog)
    else match events[0]
      case Own => After(Apply(y, prog[0]), core, root, prog[1..], events[1..])
      case Other(a) => After(Apply(y, a), core, root, prog, events[1..])
  }

  /**
    At every moment of every interleaving, the user half of the table is the
    image that the actions done so far add up to.
   */
  lemma {:induction false} ImageAtEveryMoment(y: System, core: Core, root: Frame, m: Image, prog: seq<Action>,
                                              events: seq<Event>)
    requires SystemInv(y) && IsRoot(y.mem, root) && core in y.cr3 && y.cr3[core] == root
    requires Holds(y.mem, root, m) && Ordered(m, prog) && Exec(y, core, root, prog, events)
    ensures var r := After(y, core, root, prog, events);
      && SystemInv(r.0) && IsRoot(r.0.mem, root) && core in r.0.cr3 && r.0.cr3[core] == root
      && |r.1| <= |prog| && r.1 == prog[|prog| - |r.1|..]
      && Holds(r.0.mem, root, Expect(m, prog[..|prog| - |r.1|]))
      && FreshMaps(m, prog[..|prog| - |r.1|])
    decreases |events|, 1
  {
    hide SystemInv, IsRoot, Inv, Holds, OwnAction, Effect, Step, Enabled, StepKeeps, NewRootsClone, Ordered;
    if events == [] {
      assert prog[..0] == [];
    } else {
      match events[0] {
        case Other(a) =>
          OtherStep(y, core, root, m, a);
          ImageAtEveryMoment(Apply(y, a), core, root, m, prog, events[1..]);
        case Own => OwnMoment(y, core, root, m, prog, events);
      }
    }
  }

  lemma {:induction false} OwnMoment(y: System, core: Core, root: Frame, m: Image, prog: seq<Action>,
                                     events: seq<Event>)
    requires SystemInv(y) && IsRoot(y.mem, root) && core in y.cr3 && y.cr3[core] == root
    requires Holds(y.mem, root, m) && Ordered(m, prog) && Exec(y, core, root, prog, events) && events != []
    requires events[0] == Own
    ensures var r := After(y, core, root, prog, events);
      && SystemInv(r.0) && IsRoot(r.0.mem, root) && core in r.0.cr3 && r.0.cr3[core] == root
      && |r.1| <= |prog| && r.1 == prog[|prog| - |r.1|..]
      && Holds(r.0.mem, root, Expect(m, prog[..|prog| - |r.1|]))
      && FreshMaps(m, prog[..|prog| - |r.1|])
    decreases |events|, 0
  {
    hide SystemInv, IsRoot, Inv, Holds, OwnAction, Effect, Step, Enabled, StepKeeps, NewRootsClone;
    var a, rest := prog[0], prog[1..];
    OwnStep(y, core, root, m, a);
    ImageAtEveryMoment(Apply(y, a), core, root, Step(m, a), rest, events[1..]);
    var r := After(Apply(y, a), core, root, rest, events[1..]);
    var k := |rest| - |r.1|;
    assert rest[k..] == prog[k + 1..];
    Prefixed(m, prog, k + 1);
  }

  lemma Prefixed(m: Image, prog: seq<Action>, k: nat)
    requires 0 < k <= |prog| && FreshMaps(Step(m, prog[0]), prog[1..][..k - 1])
    requires prog[0].MapUserPage? ==> prog[0].page !in m.flags
    ensures FreshMaps(m, prog[..k]) && Expect(m, prog[..k]) == Expect(Step(m, prog[0]), prog[1..][..k - 1])
  {
    hide Step;
    assert prog[..k][1..] == prog[1..][..k - 1];
  }

  lemma OtherStep(y: System, core: Core, root: Frame, m: Image, a: Action)
    requires SystemInv(y) && IsRoot(y.mem, root) && core in y.cr3 && y.cr3[core] == root
    requires Holds(y.mem, root, m) && OtherAction(y, core, root, a)
    ensures a.core in y.cr3
    ensures var y' := Apply(y, a);
      SystemInv(y') && IsRoot(y'.mem, root) && core in y'.cr3 && y'.cr3[core] == root && Holds(y'.mem, root, m)
  {
    hide SystemInv, Inv, Holds, Effect, SameView, Next;
    OtherHolds(y, core, root, m, a);
    ActionKeeps(y, a);
  }

  lemma OwnStep(y: System, core: Core, root: Frame, m: Image, a: Action)
    requires SystemInv(y) && IsRoot(y.mem, root) && core in y.cr3 && y.cr3[core] == root
    requires Holds(y.mem, root, m) && OwnAction(y, core, root, a) && Prepared(m, a)
    ensures a.core in y.cr3 && (a.MapUserPage? ==> a.page !in m.flags)
    ensures var y' := Apply(y, a);
      SystemInv(y') && IsRoot(y'.mem, root) && core in y'.cr3 && y'.cr3[core] == root && Holds(y'.mem, root, Step(m, a))
  {
    hide SystemInv, Inv, Holds, Effect, SameView, Next, Step;
    OwnHolds(y, core, root, m, a);
    ActionKeeps(y, a);
  }

  // ------------------------------------------------------------- what the programs add up to

  function FlagAt(m: Image, q: Page): (f: Option<Flags>) { if q in m.flags then Some(m.flags[q]) else None }

  function ByteAt(m: Image, q: Page, off: nat): (b: Option<Byte>)
  {
    if (q, off) in m.bytes then Some(m.bytes[(q, off)]) else None
  }

  lemma ExpectSnoc(m: Image, prog: seq<Action>, a: Action)
    ensures Expect(m, prog + [a]) == Step(Expect(m, prog), a)
  {
    ExpectConcat(m, prog, [a]);
    assert [a][1..] == [];
    assert Expect(Expect(m, prog), [a]) == Expect(Step(Expect(m, prog), a), []);
  }

  lemma {:induction false} MapRangeEffect(m: Image, c: Core, first: nat, n: nat, fl: Flags)
    requires first + n <= PAGES
    ensures var m' := Expect(m, MapRange(c, true, first, n, fl));
      m'.bytes == m.bytes && forall q: Page ::
        FlagAt(m', q) == if InRange(q, first, n) then Some(fl.(user := true)) else FlagAt(m, q)
  {
    hide PageOf, NumberOf, Expect;
    if n == 0 {
      ExpectNothing(m);
    } else {
      MapRangeEffect(m, c, first, n - 1, fl);
      var p := PageOf((first + n - 1) * 4096);
      ExpectSnoc(m, MapRange(c, true, first, n - 1, fl), MapUserPage(c, p, fl));
      var m' := Expect(m, MapRange(c, true, first, n, fl));
      forall q: Page ensures FlagAt(m', q) == if InRange(q, first, n) then Some(fl.(user := true)) else FlagAt(m, q) {
        NumberOfPage(first + n - 1, q);
        var before := FlagAt(Expect(m, MapRange(c, true, first, n - 1, fl)), q);
        assert before == if InRange(q, first, n - 1) then Some(fl.(user := true)) else FlagAt(m, q);
      }
    }
  }

  lemma ExpectNothing(m: Image)
    ensures Expect(m, []) == m
  {
  }

  lemma {:induction false} FlagRangeEffect(m: Image, c: Core, first: nat, n: nat, fl: Flags)
    requires first + n <= PAGES
    ensures var m' := Expect(m, FlagRange(c, first, n, fl));
      m'.bytes == m.bytes && forall q: Page :: FlagAt(m', q) == if InRange(q, first, n) then Some(fl) else FlagAt(m, q)
  {
    hide PageOf, NumberOf, Expect;
    if n == 0 {
      ExpectNothing(m);
    } else {
      FlagRangeEffect(m, c, first, n - 1, fl);
      var p := PageOf((first + n - 1) * 4096);
      ExpectSnoc(m, FlagRange(c, first, n - 1, fl), SetFlags(c, p, fl));
      var m' := Expect(m, FlagRange(c, first, n, fl));
      forall q: Page ensures FlagAt(m', q) == if InRange(q, first, n) then Some(fl) else FlagAt(m, q) {
        NumberOfPage(first + n - 1, q);
        var before := FlagAt(Expect(m, FlagRange(c, first, n - 1, fl)), q);
        assert before == if InRange(q, first, n - 1) then Some(fl) else FlagAt(m, q);
      }
    }
  }

  /** What page `q`, offset `off`, holds after `data` was stored from `base` over `old`. */
  function Stored(q: Page, off: nat, base: nat, data: seq<Byte>, n: nat, old_: Option<Byte>): (b: Option<Byte>)
    requires n <= |data|
  {
    var a := NumberOf(q) * 4096 + off;
    if base <= a < base + n then Some(data[a - base]) else old_
  }

  lemma {:induction false} StoreRangeEffect(m: Image, c: Core, base: nat, data: seq<Byte>, n: nat)
    requires base + n <= PAGES * 4096 && n <= |data|
    ensures var m' := Expect(m, StoreRange(c, base, data, n));
      && m'.flags == m.flags
      && (forall q: Page, off: nat :: off < 4096 ==>
            ByteAt(m', q, off) == Stored(q, off, base, data, n, ByteAt(m, q, off)))
  {
    hide PageOf, NumberOf, Expect;
    if n == 0 {
      ExpectNothing(m);
    } else {
      StoreRangeEffect(m, c, base, data, n - 1);
      var a := base + n - 1;
      ExpectSnoc(m, StoreRange(c, base, data, n - 1), Store(c, PageOf(a), a % 4096, data[n - 1]));
      var m' := Expect(m, StoreRange(c, base, data, n));
      forall q: Page, off: nat | off < 4096 ensures ByteAt(m', q, off) ==
        Stored(q, off, base, data, n, ByteAt(m, q, off)) {
        NumberOfAddress(a, q, off);
      }
    }
  }
}
