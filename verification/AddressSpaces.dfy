/**
  Many cores, each with its own CR3, using one `MEMORY`.  Every operation
  holds the lock for its whole length and is one action; loads and stores
  through a mapping are actions of their own, and so are writes to a frame
  through the kernel's window on all of physical memory.  The theorems are
  about every legal sequence of actions.
 */
module AddressSpaces {
  import opened Words
  import opened PhysicalMemory
  import opened PageTables
  import opened MemoryOps
  import opened Permissions

  type Core = nat

  datatype System = System(mem: State, cr3: map<Core, Frame>)

  datatype Action =
    | CreateUserTable(core: Core)
    | SwitchTo(core: Core, root: Frame)
    | MapKernelPage(core: Core, page: Page, flags: Flags)
    | MapUserPage(core: Core, page: Page, flags: Flags)
    | MapFrame(core: Core, page: Page, flags: Flags, frame: Frame)
    | SetFlags(core: Core, page: Page, flags: Flags)
    | UnmapPage(core: Core, page: Page)
    | UnmapRamPage(core: Core, page: Page)
    | Allocate(core: Core)
    | Deallocate(core: Core, frame: Frame)
    | Store(core: Core, page: Page, offset: nat, byte: Byte)
    | StoreUnprotected(core: Core, page: Page, offset: nat, byte: Byte)
    | WriteFrame(core: Core, frame: Frame, offset: nat, byte: Byte)

  /** What the unsafe operations demand of their callers, and a core's demand to exist. */
  predicate Enabled(y: System, a: Action)
  {
    && a.core in y.cr3
    && match a
       case SwitchTo(_, root) => IsRoot(y.mem, root)
       case MapFrame(_, _, _, f) => f in y.mem.own && (y.mem.own[f] == Held || y.mem.own[f] == Foreign)
       case UnmapRamPage(c, p) =>
         var l := Translate(y.mem.ram, y.cr3[c], p);
         l.Some? ==> l.value.frame in y.mem.pool
       case Deallocate(_, f) => f in y.mem.own && y.mem.own[f] == Held
       case Store(_, _, off, _) => off < 4096
       case StoreUnprotected(_, _, off, _) => off < 4096
       case WriteFrame(_, f, off, _) => off < 4096 && f in y.mem.own &&
         (y.mem.own[f] == Held || y.mem.own[f] == Foreign)
       case _ => true
  }

  /**
    A store on a core that does not have CR0.WP set, as none of the APs has:
    only a page that is not mapped faults, and changes nothing.
   */
  function StoreAt(s: State, root: Frame, p: Page, off: nat, b: Byte): (s': State)
  {
    var l := Translate(s.ram, root, p);
    if l.None? then s else Poke(s, l.value.frame, off, b)
  }

  /** A store on a core that has it set: a page that may not be written faults too. */
  function StoreTo(s: State, root: Frame, p: Page, off: nat, b: Byte): (s': State)
  {
    if MayWrite(s.ram, root, p) then StoreAt(s, root, p, off, b) else s
  }

  predicate MayWrite(ram: Ram, root: Frame, p: Page)
    ensures MayWrite(ram, root, p) ==> Translate(ram, root, p).Some?
  {
    Effective(ram, root, p).Some? && Effective(ram, root, p).value.writable
  }

  function Effect(s: State, root: Frame, a: Action): (s': State)
  {
    match a
    case CreateUserTable(_) => CreateTable(s, root).state
    case SwitchTo(_, _) => s
    case MapKernelPage(_, p, fl) => MapRamKernel(s, root, p, fl).state
    case MapUserPage(_, p, fl) => MapRamUser(s, root, p, fl).state
    case MapFrame(_, p, fl, f) => MapTo(s, root, p, f, fl).state
    case SetFlags(_, p, fl) => ChangeFlags(s, root, p, fl).state
    case UnmapPage(_, p) => Unmap(s, root, p).state
    case UnmapRamPage(_, p) => UnmapRam(s, root, p).state
    case Allocate(_) => Take(s)
    case Deallocate(_, f) => Give(s, f)
    case Store(_, p, off, b) => StoreTo(s, root, p, off, b)
    case StoreUnprotected(_, p, off, b) => StoreAt(s, root, p, off, b)
    case WriteFrame(_, f, off, b) => Poke(s, f, off, b)
  }

  function Apply(y: System, a: Action): (y': System)
    requires a.core in y.cr3
  {
    System(Effect(y.mem, y.cr3[a.core], a), if a.SwitchTo? then y.cr3[a.core := a.root] else y.cr3)
  }

  ghost predicate SystemInv(y: System)
  {
    Inv(y.mem) && forall c: Core :: c in y.cr3 ==> IsRoot(y.mem, y.cr3[c])
  }

  // ------------------------------------------------------- one frame, one mapping

  /** The owner of a managed frame that is mapped. */
  lemma MappedOwner(s: State, r: Frame, p: Page)
    requires Inv(s) && IsRoot(s, r) && Translate(s.ram, r, p).Some?
    ensures L1Table(s.ram, r, p).Some?
    ensures var f := Translate(s.ram, r, p).value.frame;
      f in s.own && f in s.ram
      && if f in s.pool then s.own[f] == Child(0, L1Table(s.ram, r, p).value, p.l1) else s.own[f] == Foreign
  {
    hide EntryAt, ListOk, UpOk;
    WalkOwner(s, r, p);
    var t := L1Table(s.ram, r, p).value;
    assert LinkOk(s, t, p.l1, EntryAt(s.ram, t, p.l1));
  }

  /** No managed frame is mapped at two places, except through a shared kernel slot. */
  lemma OneMapping(s: State, r: Frame, p: Page, r': Frame, p': Page)
    requires Inv(s) && IsRoot(s, r) && IsRoot(s, r')
    requires Translate(s.ram, r, p).Some? && Translate(s.ram, r', p').Some?
    requires Translate(s.ram, r, p).value.frame == Translate(s.ram, r', p').value.frame
    requires Translate(s.ram, r, p).value.frame in s.pool
    ensures p == p' && (r == r' || Kernel(p.l4))
  {
    hide EntryAt, Inv, Translate, L1Table;
    MappedOwner(s, r, p);
    MappedOwner(s, r', p');
    SameL1SamePath(s, r, p, r', p');
  }

  /**
    Page `p` under root `r` uses no frame of the free list: no table of its
    walk, however far it gets, and not the page's frame.
   */
  predicate Unreachable(s: State, r: Frame, p: Page)
  {
    && r !in s.list
    && (Next(s.ram, r, p.l4).Some? ==>
          var t3 := Next(s.ram, r, p.l4).value;
          t3 !in s.list && (Next(s.ram, t3, p.l3).Some? ==> Next(s.ram, t3, p.l3).value !in s.list))
    && (L1Table(s.ram, r, p).Some? ==> L1Table(s.ram, r, p).value !in s.list)
    && (Translate(s.ram, r, p).Some? ==> Translate(s.ram, r, p).value.frame !in s.list)
  }

  lemma FreeIsUnreachable(s: State, r: Frame, p: Page)
    requires Inv(s) && IsRoot(s, r)
    ensures Unreachable(s, r, p)
  {
    hide EntryAt, NodeAt, NextOf, NoDup, DownOk, UpOk, Translate, L1Table, Next;
    if Next(s.ram, r, p.l4).Some? {
      NextOwner(s, r, p.l4);
      var t3 := Next(s.ram, r, p.l4).value;
      if Next(s.ram, t3, p.l3).Some? {
        NextOwner(s, t3, p.l3);
      }
    }
    if L1Table(s.ram, r, p).Some? {
      WalkOwner(s, r, p);
    }
    if Translate(s.ram, r, p).Some? {
      MappedOwner(s, r, p);
    }
  }

  /** A byte stored in a frame that is neither a table nor free changes that frame and no translation. */
  lemma PokeEffect(s: State, f: Frame, off: nat, b: Byte)
    requires Inv(s) && f in s.own && Level(s.own[f]) == 0 && !s.own[f].FreeFrame? && off < 4096
    ensures var s' := Poke(s, f, off, b);
      && Inv(s') && s' == s.(ram := s'.ram)
      && (forall g: Frame :: g in s.ram && g != f ==> g in s'.ram && s'.ram[g] == s.ram[g])
      && (forall r: Frame, q: Page :: IsRoot(s, r) ==> Translate(s'.ram, r, q) == Translate(s.ram, r, q))
      && (forall r: Frame, j: Index :: IsRoot(s, r) ==> Next(s'.ram, r, j) == Next(s.ram, r, j))
  {
    hide EntryAt, NodeAt, Inv, Translate, L1Table;
    var s' := Poke(s, f, off, b);
    PokeInv(s, f, off, b);
    InvKeys(s);
    AllUntouchedBut(s.ram, s'.ram, {f});
    forall r: Frame, q: Page | IsRoot(s, r) ensures Translate(s'.ram, r, q) == Translate(s.ram, r, q) {
      WalkKept(s, s'.ram, r, q);
    }
  }

  lemma StoreAtInv(s: State, root: Frame, p: Page, off: nat, b: Byte)
    requires Inv(s) && IsRoot(s, root) && off < 4096
    ensures var s' := StoreAt(s, root, p, off, b);
      && Inv(s') && s' == s.(ram := s'.ram)
      && (forall g: Frame ::
            g in s.ram && (Translate(s.ram, root, p).Some? ==> g != Translate(s.ram, root, p).value.frame) ==>
            g in s'.ram && s'.ram[g] == s.ram[g])
      && (forall r: Frame, q: Page :: IsRoot(s, r) ==> Translate(s'.ram, r, q) == Translate(s.ram, r, q))
      && (forall r: Frame, j: Index :: IsRoot(s, r) ==> Next(s'.ram, r, j) == Next(s.ram, r, j))
  {
    hide EntryAt, NodeAt, Inv, Translate, L1Table, Next, Poke;
    if Translate(s.ram, root, p).Some? {
      MappedOwner(s, root, p);
      PokeEffect(s, Translate(s.ram, root, p).value.frame, off, b);
    }
  }

  lemma StoreInv(s: State, root: Frame, p: Page, off: nat, b: Byte)
    requires Inv(s) && IsRoot(s, root) && off < 4096
    ensures var s' := StoreTo(s, root, p, off, b);
      && Inv(s') && s' == s.(ram := s'.ram)
      && (forall g: Frame ::
            g in s.ram && (Translate(s.ram, root, p).Some? ==> g != Translate(s.ram, root, p).value.frame) ==>
            g in s'.ram && s'.ram[g] == s.ram[g])
      && (forall r: Frame, q: Page :: IsRoot(s, r) ==> Translate(s'.ram, r, q) == Translate(s.ram, r, q))
      && (forall r: Frame, j: Index :: IsRoot(s, r) ==> Next(s'.ram, r, j) == Next(s.ram, r, j))
  {
    hide Inv, Translate, Next, Effective, StoreAt;
    StoreAtInv(s, root, p, off, b);
  }

  // -------------------------------------------------- what any one action preserves

  /** The view of page `q` under root `r`: its leaf and, for a managed frame, its bytes. */
  predicate SameView(s: State, s': State, r: Frame, q: Page)
  {
    && Translate(s'.ram, r, q) == Translate(s.ram, r, q)
    && (Translate(s.ram, r, q).Some? && Translate(s.ram, r, q).value.frame in s.pool ==>
          var f := Translate(s.ram, r, q).value.frame;
          f in s.ram && f in s'.ram && s'.ram[f] == s.ram[f])
  }

  /** A step taken with `root` active and, if it maps, with target slot `slot`. */
  ghost predicate StepKeeps(s: State, s': State, root: Frame, slot: Option<Index>)
  {
    && Inv(s')
    && s'.own.Keys == s.own.Keys && s'.pool == s.pool && s'.total == s.total && s'.kernelRoot == s.kernelRoot
    && (forall r: Frame :: IsRoot(s, r) ==> IsRoot(s', r))
    && (forall r: Frame, q: Page :: IsRoot(s, r) && r != root && !Kernel(q.l4) ==> SameView(s, s', r, q))
    && (forall r: Frame, j: Index :: IsRoot(s, r) ==>
          Next(s'.ram, r, j) == Next(s.ram, r, j) || (r == root && slot == Some(j) && Next(s.ram, r, j).None?))
  }

  /** Roots that are new in `s'` start with the kernel half of `root`. */
  ghost predicate NewRootsClone(s: State, s': State, root: Frame)
  {
    forall r: Frame, j: Index :: IsRoot(s', r) && !IsRoot(s, r) ==>
      Next(s'.ram, r, j) == if Kernel(j) then Next(s.ram, root, j) else None
  }

  function SlotOf(a: Action): (i: Option<Index>)
  {
    match a
    case MapKernelPage(_, p, _) => Some(p.l4)
    case MapUserPage(_, p, _) => Some(p.l4)
    case MapFrame(_, p, _, _) => Some(p.l4)
    case _ => None
  }

  /** Translations and bytes survive an update of one page under another root. */
  lemma UpdateKeepsViews(s: State, s': State, root: Frame, p: Page, l: Option<Leaf>)
    requires Inv(s) && Inv(s') && IsRoot(s, root) && Updates(s, s', root, p, l)
    requires forall r: Frame :: IsRoot(s, r) ==> IsRoot(s', r)
    requires Next(s'.ram, root, p.l4).Some?
    requires forall g: Frame ::
      (g in s.own && g in s.ram && s.own[g].Child? && s.own[g].level == 0
       && !(Translate(s.ram, root, p).Some? && g == Translate(s.ram, root, p).value.frame))
      ==> g in s'.ram && s'.ram[g] == s.ram[g]
    ensures forall r: Frame, q: Page :: IsRoot(s, r) && r != root && !Kernel(q.l4) ==> SameView(s, s', r, q)
  {
    hide EntryAt, NodeAt, Inv, Translate, L1Table, Next, SameSlot;
    forall r: Frame, q: Page | IsRoot(s, r) && r != root && !Kernel(q.l4) ensures SameView(s, s', r, q) {
      if q == p {
        UserSlotsNotShared(s', root, r, p.l4);
      }
      if Translate(s.ram, r, q).Some? && Translate(s.ram, r, q).value.frame in s.pool {
        MappedOwner(s, r, q);
        if Translate(s.ram, root, p).Some? &&
          Translate(s.ram, root, p).value.frame == Translate(s.ram, r, q).value.frame {
          OneMapping(s, root, p, r, q);
        }
      }
    }
  }

  lemma ExtendKeepsViews(s: State, s': State)
    requires Inv(s) && Extends(s, s')
    ensures forall r: Frame, q: Page :: IsRoot(s, r) ==> SameView(s, s', r, q)
    ensures forall r: Frame :: IsRoot(s', r) <==> IsRoot(s, r)
  {
    hide EntryAt, NodeAt, Inv, Translate, L1Table, Next;
    forall r: Frame, q: Page | IsRoot(s, r) ensures SameView(s, s', r, q) {
      if Translate(s.ram, r, q).Some? {
        MappedOwner(s, r, q);
      }
    }
  }

  lemma MapRamKeeps(s: State, root: Frame, p: Page, fl: Flags)
    requires Inv(s) && IsRoot(s, root)
    ensures var s' := MapRam(s, root, p, fl).state;
      StepKeeps(s, s', root, Some(p.l4)) && forall r: Frame :: IsRoot(s', r) <==> IsRoot(s, r)
  {
    hide EntryAt, NodeAt, Inv, Translate, L1Table, Next, MapRam, Missing, Obstructed, LeafUnused;
    MapRamMeets(s, root, p, fl);
    MapRamRoots(s, root, p, fl);
    var o := MapRam(s, root, p, fl);
    if o.result.Ok? {
      UpdateKeepsViews(s, o.state, root, p, Some(Leaf(o.result.value, fl)));
    } else {
      ExtendKeepsViews(s, o.state);
    }
  }

  lemma MapFrameKeeps(s: State, root: Frame, p: Page, f: Frame, fl: Flags)
    requires Inv(s) && IsRoot(s, root) && f in s.own && (s.own[f] == Held || s.own[f] == Foreign)
    ensures var s' := MapTo(s, root, p, f, fl).state;
      StepKeeps(s, s', root, Some(p.l4)) && forall r: Frame :: IsRoot(s', r) <==> IsRoot(s, r)
  {
    hide EntryAt, NodeAt, Inv, Translate, L1Table, Next, MapTo, Missing, Obstructed, LeafUnused;
    MapToMeets(s, root, p, f, fl);
    MapToRoots(s, root, p, f, fl);
    var o := MapTo(s, root, p, f, fl);
    if o.result.Ok? {
      UpdateKeepsViews(s, o.state, root, p, Some(Leaf(f, fl)));
    } else {
      ExtendKeepsViews(s, o.state);
    }
  }

  lemma ChangeFlagsKeeps(s: State, root: Frame, p: Page, fl: Flags)
    requires Inv(s) && IsRoot(s, root)
    ensures var s' := ChangeFlags(s, root, p, fl).state;
      StepKeeps(s, s', root, None) && forall r: Frame :: IsRoot(s', r) <==> IsRoot(s, r)
  {
    hide EntryAt, NodeAt, Inv, Translate, L1Table, Next, ChangeFlags, LeafUnused;
    ChangeFlagsMeets(s, root, p, fl);
    ChangeFlagsRoots(s, root, p, fl);
    var o := ChangeFlags(s, root, p, fl);
    if o.result.Ok? {
      UpdateKeepsViews(s, o.state, root, p, Some(Leaf(o.result.value, fl)));
    } else {
      ExtendsRefl(s);
      ExtendKeepsViews(s, s);
    }
  }

  lemma UnmapKeeps(s: State, root: Frame, p: Page)
    requires Inv(s) && IsRoot(s, root)
    ensures var s' := Unmap(s, root, p).state;
      StepKeeps(s, s', root, None) && forall r: Frame :: IsRoot(s', r) <==> IsRoot(s, r)
  {
    hide EntryAt, NodeAt, Inv, Translate, L1Table, Next, Unmap;
    UnmapMeets(s, root, p);
    UnmapRoots(s, root, p);
    var o := Unmap(s, root, p);
    if o.result.Ok? {
      UpdateKeepsViews(s, o.state, root, p, None);
    } else {
      ExtendsRefl(s);
      ExtendKeepsViews(s, s);
    }
  }

  lemma UnmapRamKeeps(s: State, root: Frame, p: Page)
    requires Inv(s) && IsRoot(s, root)
    requires Translate(s.ram, root, p).Some? ==> Translate(s.ram, root, p).value.frame in s.pool
    ensures var s' := UnmapRam(s, root, p).state;
      StepKeeps(s, s', root, None) && forall r: Frame :: IsRoot(s', r) <==> IsRoot(s, r)
  {
    hide EntryAt, NodeAt, Inv, Translate, L1Table, Next, UnmapRam;
    UnmapRamMeets(s, root, p);
    UnmapRamRoots(s, root, p);
    var o := UnmapRam(s, root, p);
    if o.result.Ok? {
      MappedOwner(s, root, p);
      UpdateKeepsViews(s, o.state, root, p, None);
    } else {
      ExtendsRefl(s);
      ExtendKeepsViews(s, s);
    }
  }

  lemma CreateKeeps(s: State, root: Frame)
    requires Inv(s) && IsRoot(s, root)
    ensures var s' := CreateTable(s, root).state; StepKeeps(s, s', root, None) && NewRootsClone(s, s', root)
  {
    hide EntryAt, NodeAt, Inv, Translate, L1Table, Next, CreateTable;
    CreateTableMeets(s, root);
    var s' := CreateTable(s, root).state;
    forall r: Frame, q: Page | IsRoot(s, r) ensures SameView(s, s', r, q) {
      if Translate(s.ram, r, q).Some? {
        MappedOwner(s, r, q);
      }
    }
  }

  lemma StoreAtKeeps(s: State, root: Frame, p: Page, off: nat, b: Byte)
    requires Inv(s) && IsRoot(s, root) && off < 4096
    ensures var s' := StoreAt(s, root, p, off, b);
      StepKeeps(s, s', root, None) && forall r: Frame :: IsRoot(s', r) <==> IsRoot(s, r)
  {
    hide EntryAt, NodeAt, Inv, Translate, L1Table, Next, StoreAt;
    StoreAtInv(s, root, p, off, b);
    var s' := StoreAt(s, root, p, off, b);
    forall r: Frame, q: Page | IsRoot(s, r) && r != root && !Kernel(q.l4) ensures SameView(s, s', r, q) {
      if Translate(s.ram, r, q).Some? && Translate(s.ram, r, q).value.frame in s.pool {
        MappedOwner(s, r, q);
        if Translate(s.ram, root, p).Some? &&
          Translate(s.ram, root, p).value.frame == Translate(s.ram, r, q).value.frame {
          OneMapping(s, root, p, r, q);
        }
      }
    }
  }

  lemma StoreKeeps(s: State, root: Frame, p: Page, off: nat, b: Byte)
    requires Inv(s) && IsRoot(s, root) && off < 4096
    ensures var s' := StoreTo(s, root, p, off, b);
      StepKeeps(s, s', root, None) && forall r: Frame :: IsRoot(s', r) <==> IsRoot(s, r)
  {
    hide Inv, Translate, Next, Effective, StoreAt, SameView;
    StoreAtKeeps(s, root, p, off, b);
    Unchanged(s, root);
  }

  lemma WriteFrameKeeps(s: State, root: Frame, f: Frame, off: nat, b: Byte)
    requires Inv(s) && f in s.own && (s.own[f] == Held || s.own[f] == Foreign) && off < 4096
    ensures var s' := Poke(s, f, off, b);
      StepKeeps(s, s', root, None) && forall r: Frame :: IsRoot(s', r) <==> IsRoot(s, r)
  {
    hide EntryAt, NodeAt, Inv, Translate, L1Table, Next, Poke;
    PokeEffect(s, f, off, b);
    var s' := Poke(s, f, off, b);
    forall r: Frame, q: Page | IsRoot(s, r) ensures SameView(s, s', r, q) {
      if Translate(s.ram, r, q).Some? {
        MappedOwner(s, r, q);
      }
    }
  }

  lemma GiveKeeps(s: State, root: Frame, f: Frame)
    requires Inv(s) && f in s.own && s.own[f] == Held
    ensures var s' := Give(s, f);
      StepKeeps(s, s', root, None) && forall r: Frame :: IsRoot(s', r) <==> IsRoot(s, r)
  {
    hide EntryAt, NodeAt, Inv, Translate, L1Table, Next, SetNode;
    GiveInv(s, f);
    GiveWalks(s, f);
    InvKeys(s);
    SetNodeFrame(s.ram, f, Node(s.head, f));
    var s' := Give(s, f);
    forall r: Frame, q: Page | IsRoot(s, r) ensures SameView(s, s', r, q) {
      if Translate(s.ram, r, q).Some? {
        MappedOwner(s, r, q);
      }
    }
  }

  lemma TakeKeeps(s: State, root: Frame)
    requires Inv(s)
    ensures var s' := Take(s);
      StepKeeps(s, s', root, None) && forall r: Frame :: IsRoot(s', r) <==> IsRoot(s, r)
  {
    hide EntryAt, NodeAt, Inv, Translate, L1Table, Next;
    if s.head.Some? {
      TakeExtends(s);
      ExtendKeepsViews(s, Take(s));
    } else {
      ExtendsRefl(s);
      ExtendKeepsViews(s, s);
    }
  }

  /** Every enabled action keeps the invariant and the user half of every other root. */
  lemma ActionKeeps(y: System, a: Action)
    requires SystemInv(y) && Enabled(y, a)
    ensures SystemInv(Apply(y, a))
    ensures StepKeeps(y.mem, Apply(y, a).mem, y.cr3[a.core], SlotOf(a))
    ensures NewRootsClone(y.mem, Apply(y, a).mem, y.cr3[a.core])
  {
    hide EntryAt, NodeAt, Inv, Translate, L1Table, Next, MapRam, MapTo, ChangeFlags, Unmap, UnmapRam, CreateTable,
      StoreTo, StoreAt, Give, Take, Poke;
    var s, root := y.mem, y.cr3[a.core];
    match a {
      case CreateUserTable(_) => CreateKeeps(s, root);
      case SwitchTo(_, _) => Unchanged(s, root);
      case MapKernelPage(_, p, fl) => MapRamKeeps(s, root, p, fl); Unchanged(s, root);
      case MapUserPage(_, p, fl) => MapRamKeeps(s, root, p, fl.(user := true)); Unchanged(s, root);
      case MapFrame(_, p, fl, f) => MapFrameKeeps(s, root, p, f, fl);
      case SetFlags(_, p, fl) => ChangeFlagsKeeps(s, root, p, fl);
      case UnmapPage(_, p) => UnmapKeeps(s, root, p);
      case UnmapRamPage(_, p) => UnmapRamKeeps(s, root, p);
      case Allocate(_) => TakeKeeps(s, root);
      case Deallocate(_, f) => GiveKeeps(s, root, f);
      case Store(_, p, off, b) => StoreKeeps(s, root, p, off, b);
      case StoreUnprotected(_, p, off, b) => StoreAtKeeps(s, root, p, off, b);
      case WriteFrame(_, f, off, b) => WriteFrameKeeps(s, root, f, off, b);
    }
  }

  lemma Unchanged(s: State, root: Frame)
    requires Inv(s)
    ensures StepKeeps(s, s, root, None)
  {
    hide EntryAt, NodeAt, Inv, Translate, L1Table, Next;
    ExtendsRefl(s);
    ExtendKeepsViews(s, s);
  }

  // ------------------------------------------------------------------------ runs

  ghost predicate Legal(y: System, run: seq<Action>)
    decreases |run|
  {
    run == [] || (Enabled(y, run[0]) && Legal(Apply(y, run[0]), run[1..]))
  }

  ghost function Run(y: System, run: seq<Action>): (y': System)
    requires Legal(y, run)
    decreases |run|
  {
    if run == [] then y else Run(Apply(y, run[0]), run[1..])
  }

  lemma {:induction false} RunKeepsInv(y: System, run: seq<Action>)
    requires SystemInv(y) && Legal(y, run)
    ensures SystemInv(Run(y, run))
    ensures Run(y, run).mem.pool == y.mem.pool && Run(y, run).mem.total == y.mem.total
    ensures forall r: Frame :: IsRoot(y.mem, r) ==> IsRoot(Run(y, run).mem, r)
    decreases |run|
  {
    hide SystemInv, Inv, Effect, IsRoot, Next, SameView;
    if run != [] {
      ActionKeeps(y, run[0]);
      RunKeepsInv(Apply(y, run[0]), run[1..]);
    }
  }

  /** No action of the run is taken by a core that has `b` active at that moment. */
  ghost predicate NeverUnder(y: System, run: seq<Action>, b: Frame)
    requires Legal(y, run)
    decreases |run|
  {
    run == [] || (y.cr3[run[0].core] != b && NeverUnder(Apply(y, run[0]), run[1..], b))
  }

  /**
    Address-space isolation.  Whatever any number of cores do under other
    tables, in any order, the user half of table `b` translates as before and
    its pages in managed frames hold the bytes they held.
   */
  lemma {:induction false} Isolation(y: System, run: seq<Action>, b: Frame, q: Page)
    requires SystemInv(y) && Legal(y, run) && NeverUnder(y, run, b)
    requires IsRoot(y.mem, b) && !Kernel(q.l4)
    ensures SameView(y.mem, Run(y, run).mem, b, q)
    decreases |run|
  {
    hide SystemInv, Inv, Effect, IsRoot, Next, Translate;
    if run == [] {
      StayingSame(y, b, q);
    } else {
      var y1 := Apply(y, run[0]);
      ActionKeeps(y, run[0]);
      Isolation(y1, run[1..], b, q);
    }
  }

  lemma StayingSame(y: System, b: Frame, q: Page)
    requires SystemInv(y) && IsRoot(y.mem, b)
    ensures SameView(y.mem, y.mem, b, q)
  {
    hide Inv, Translate;
    if Translate(y.mem.ram, b, q).Some? {
      MappedOwner(y.mem, b, q);
    }
  }

  /**
    What would break it: a write through the kernel's window into a frame that
    is mapped.  It changes what page `q` of table `r` shows exactly if `r` maps
    the frame there and the byte is another.
   */
  lemma StrayWriteExactly(s: State, f: Frame, off: nat, b: Byte, r: Frame, q: Page)
    requires Inv(s) && IsRoot(s, r) && f in s.pool && f in s.own && Level(s.own[f]) == 0 && !s.own[f].FreeFrame?
    requires off < 4096
    ensures f in s.ram
    ensures !SameView(s, Poke(s, f, off, b), r, q) <==>
      Translate(s.ram, r, q).Some? && Translate(s.ram, r, q).value.frame == f && s.ram[f][off] != b
  {
    hide EntryAt, NodeAt, Inv, Translate, L1Table, Next;
    InvKeys(s);
    PokeEffect(s, f, off, b);
    var s' := Poke(s, f, off, b);
    assert s'.ram[f][off] == b;
    if s.ram[f][off] == b {
      assert s'.ram[f] == s.ram[f];
    }
    if Translate(s.ram, r, q).Some? {
      MappedOwner(s, r, q);
    }
  }

  /** Frame `f` belongs to nobody, before and after, and keeps its bytes. */
  predicate UnmanagedKept(s: State, s': State, f: Frame)
  {
    f in s'.own && s'.own[f] == Foreign && f in s.ram && f in s'.ram && s'.ram[f] == s.ram[f]
  }

  /** A store through a page that maps `f`, or a write to `f` itself. */
  predicate StoresInto(y: System, a: Action, f: Frame)
    requires a.core in y.cr3
  {
    match a
    case Store(c, p, _, _) => Translate(y.mem.ram, y.cr3[c], p).Some? &&
      Translate(y.mem.ram, y.cr3[c], p).value.frame == f
    case StoreUnprotected(c, p, _, _) => Translate(y.mem.ram, y.cr3[c], p).Some? &&
      Translate(y.mem.ram, y.cr3[c], p).value.frame == f
    case WriteFrame(_, g, _, _) => g == f
    case _ => false
  }

  lemma ForeignNotManaged(s: State, f: Frame)
    requires Inv(s) && f in s.own && s.own[f] == Foreign
    ensures f !in s.pool && f in s.ram
  {
  }

  lemma ActionKeepsUnmanaged(y: System, a: Action, f: Frame)
    requires SystemInv(y) && Enabled(y, a) && f in y.mem.own && y.mem.own[f] == Foreign && !StoresInto(y, a, f)
    ensures UnmanagedKept(y.mem, Apply(y, a).mem, f)
  {
    hide EntryAt, NodeAt, SetNode, Inv, Translate, L1Table, Next, MapRam, MapTo, ChangeFlags, Unmap, UnmapRam,
      CreateTable, Missing, Obstructed, LeafUnused, Updates, Poke, StoreTo, StoreAt;
    var s, root := y.mem, y.cr3[a.core];
    ForeignNotManaged(s, f);
    match a {
      case CreateUserTable(_) => CreateTableMeets(s, root);
      case SwitchTo(_, _) =>
      case MapKernelPage(_, p, fl) => MapRamMeets(s, root, p, fl);
      case MapUserPage(_, p, fl) => MapRamMeets(s, root, p, fl.(user := true));
      case MapFrame(_, p, fl, g) => MapToMeets(s, root, p, g, fl);
      case SetFlags(_, p, fl) => ChangeFlagsMeets(s, root, p, fl);
      case UnmapPage(_, p) => UnmapMeets(s, root, p);
      case UnmapRamPage(_, p) => UnmapRamMeets(s, root, p);
      case Allocate(_) =>
        if s.head.Some? {
          TakeExtends(s);
        }
      case Deallocate(_, g) => InvKeys(s); SetNodeFrame(s.ram, g, Node(s.head, g));
      case Store(_, p, off, b) => StoreInv(s, root, p, off, b);
      case StoreUnprotected(_, p, off, b) => StoreAtInv(s, root, p, off, b);
      case WriteFrame(_, g, off, b) => PokeEffect(s, g, off, b);
    }
  }

  /** No action of the run writes to `f`, through a page that maps it at that moment or directly. */
  ghost predicate NeverStoredInto(y: System, run: seq<Action>, f: Frame)
    requires Legal(y, run)
    decreases |run|
  {
    run == [] || (!StoresInto(y, run[0], f) && NeverStoredInto(Apply(y, run[0]), run[1..], f))
  }

  /**
    Frames that are neither managed nor tables of the boot loader, such as
    device memory, may be mapped under several tables; their bytes change by
    stores through such a mapping, or direct writes, only.  Together with
    `Isolation` this covers every page of a table.
   */
  lemma {:induction false} UnmanagedIsolation(y: System, run: seq<Action>, f: Frame)
    requires SystemInv(y) && Legal(y, run) && f in y.mem.own && y.mem.own[f] == Foreign && NeverStoredInto(y, run, f)
    ensures UnmanagedKept(y.mem, Run(y, run).mem, f)
    decreases |run|
  {
    hide SystemInv, Inv, Effect, StoresInto, StepKeeps, NewRootsClone;
    if run == [] {
      ForeignHere(y, f);
    } else {
      ActionKeeps(y, run[0]);
      ActionKeepsUnmanaged(y, run[0], f);
      UnmanagedIsolation(Apply(y, run[0]), run[1..], f);
    }
  }

  lemma ForeignHere(y: System, f: Frame)
    requires SystemInv(y) && f in y.mem.own && y.mem.own[f] == Foreign
    ensures f in y.mem.ram
  {
    hide Inv;
    ForeignNotManaged(y.mem, f);
  }

  // ------------------------------------------------------- what stays mapped, and unmapped

  /** Mapping a page changes no translation that is there already, under any root. */
  lemma MapToKeepsMapped(s: State, root: Frame, p: Page, f: Frame, fl: Flags, r: Frame, q: Page)
    requires Inv(s) && IsRoot(s, root) && IsRoot(s, r) && f in s.own && (s.own[f] == Held || s.own[f] == Foreign)
    requires Translate(s.ram, r, q).Some?
    ensures Translate(MapTo(s, root, p, f, fl).state.ram, r, q) == Translate(s.ram, r, q)
  {
    hide EntryAt, NodeAt, Inv, Descend, WalkPath, Missing, Obstructed, PathOf, L1Table, SetEntry;
    assert |PathOf(p)| == 3 by { PathLength(p); }
    DescendMeets(s, root, PathOf(p), fl);
    var d := Descend(s, root, PathOf(p), fl);
    if d.result.Ok? && EntryAt(d.state.ram, d.result.value, p.l1) == UNUSED {
      var s1, t := d.state, d.result.value;
      InvKeys(s1);
      SetEntryEffect(s1.ram, t, p.l1, LeafEntry(f, fl));
      LeafWalk(s1, SetLeaf(s1, t, p.l1, f, fl).ram, t, p.l1, r, q);
    }
  }

  lemma MapRamKeepsMapped(s: State, root: Frame, p: Page, fl: Flags, r: Frame, q: Page)
    requires Inv(s) && IsRoot(s, root) && IsRoot(s, r) && Translate(s.ram, r, q).Some?
    ensures Translate(MapRam(s, root, p, fl).state.ram, r, q) == Translate(s.ram, r, q)
  {
    hide EntryAt, NodeAt, Inv, Translate, MapTo, Next, Take;
    if s.head.Some? {
      TakeExtends(s);
      MapToKeepsMapped(Take(s), root, p, s.head.value, fl, r, q);
    }
  }

  /** The action unmaps page `p` or changes its flags. */
  predicate Alters(a: Action, p: Page) { (a.SetFlags? || a.UnmapPage? || a.UnmapRamPage?) && a.page == p }

  /** The action maps page `p` or changes its flags. */
  predicate Provides(a: Action, p: Page)
  {
    (a.MapKernelPage? || a.MapUserPage? || a.MapFrame? || a.SetFlags?) && a.page == p
  }

  lemma ActionKeepsPage(y: System, a: Action, r: Frame, q: Page)
    requires SystemInv(y) && Enabled(y, a) && IsRoot(y.mem, r)
    requires if Translate(y.mem.ram, r, q).Some? then !Alters(a, q) else !Provides(a, q)
    ensures Translate(Apply(y, a).mem.ram, r, q) == Translate(y.mem.ram, r, q)
  {
    hide EntryAt, NodeAt, SetNode, Inv, Translate, L1Table, Next, MapRam, MapTo, ChangeFlags, Unmap, UnmapRam,
      CreateTable, Give, Take, Missing, Obstructed, LeafUnused, SameSlot, OthersKept, StoreTo, StoreAt, Poke;
    var s, root := y.mem, y.cr3[a.core];
    var there := Translate(s.ram, r, q).Some?;
    match a {
      case CreateUserTable(_) => CreateTableMeets(s, root);
      case SwitchTo(_, _) =>
      case MapKernelPage(_, p, fl) =>
        MapRamMeets(s, root, p, fl);
        if there {
          MapRamKeepsMapped(s, root, p, fl, r, q);
        }
      case MapUserPage(_, p, fl) =>
        MapRamMeets(s, root, p, fl.(user := true));
        if there {
          MapRamKeepsMapped(s, root, p, fl.(user := true), r, q);
        }
      case MapFrame(_, p, fl, f) =>
        MapToMeets(s, root, p, f, fl);
        if there {
          MapToKeepsMapped(s, root, p, f, fl, r, q);
        }
      case SetFlags(_, p, fl) => ChangeFlagsMeets(s, root, p, fl);
      case UnmapPage(_, p) => UnmapMeets(s, root, p);
      case UnmapRamPage(_, p) => UnmapRamMeets(s, root, p);
      case Allocate(_) => TakeKeepsRam(s);
      case Deallocate(_, f) => GiveWalks(s, f);
      case Store(_, p, off, b) => StoreInv(s, root, p, off, b);
      case StoreUnprotected(_, p, off, b) => StoreAtInv(s, root, p, off, b);
      case WriteFrame(_, f, off, b) => PokeEffect(s, f, off, b);
    }
  }

  lemma TakeKeepsRam(s: State)
    ensures Take(s).ram == s.ram
  {
    hide NodeAt;
  }

  /**
    A page that no action of a run unmaps or re-flags stays mapped as it is,
    and a page that none maps or re-flags stays unmapped, under every table.
   */
  lemma {:induction false} PageStays(y: System, run: seq<Action>, r: Frame, q: Page)
    requires SystemInv(y) && Legal(y, run) && IsRoot(y.mem, r)
    requires forall k :: 0 <= k < |run| ==>
      if Translate(y.mem.ram, r, q).Some? then !Alters(run[k], q) else !Provides(run[k], q)
    ensures Translate(Run(y, run).mem.ram, r, q) == Translate(y.mem.ram, r, q)
    decreases |run|
  {
    hide SystemInv, Inv, Effect, IsRoot, Next, SameView, Translate, Alters, Provides;
    if run != [] {
      ActionKeeps(y, run[0]);
      ActionKeepsPage(y, run[0], r, q);
      PageStays(Apply(y, run[0]), run[1..], r, q);
    }
  }

  lemma StoreGrows(s: State, root: Frame, p: Page, off: nat, b: Byte)
    requires Inv(s) && IsRoot(s, root)
    ensures Grows(s, StoreAt(s, root, p, off, b))
  {
    hide Inv, Translate, Poke, Grows;
    GrowsRefl(s);
    if Translate(s.ram, root, p).Some? {
      MappedOwner(s, root, p);
      PokeGrows(s, Translate(s.ram, root, p).value.frame, off, b);
    }
  }

  /** No action makes an entry that leads to a table lead elsewhere or allow less. */
  lemma ActionGrows(y: System, a: Action)
    requires SystemInv(y) && Enabled(y, a)
    ensures Grows(y.mem, Apply(y, a).mem)
  {
    hide EntryAt, NodeAt, Inv, Translate, L1Table, Next, MapRam, MapTo, ChangeFlags, Unmap, UnmapRam, CreateTable, Give,
      Take, Poke, StoreAt, Effective, Grows;
    var s, root := y.mem, y.cr3[a.core];
    GrowsRefl(s);
    match a {
      case CreateUserTable(_) => CreateGrows(s, root);
      case SwitchTo(_, _) =>
      case MapKernelPage(_, p, fl) => MapRamGrows(s, root, p, fl);
      case MapUserPage(_, p, fl) => MapRamGrows(s, root, p, fl.(user := true));
      case MapFrame(_, p, fl, f) => MapToGrows(s, root, p, f, fl);
      case SetFlags(_, p, fl) => ChangeFlagsGrows(s, root, p, fl);
      case UnmapPage(_, p) => UnmapGrows(s, root, p);
      case UnmapRamPage(_, p) => UnmapRamGrows(s, root, p);
      case Allocate(_) => TakeGrows(s);
      case Deallocate(_, f) => GiveGrows(s, f);
      case Store(_, p, off, b) => StoreGrows(s, root, p, off, b);
      case StoreUnprotected(_, p, off, b) => StoreGrows(s, root, p, off, b);
      case WriteFrame(_, f, off, b) => PokeGrows(s, f, off, b);
    }
  }

  /**
    A mapped page that no action of a run unmaps or re-flags may be used, through
    all four entries, for whatever it could be used before; and if that was all
    that its own flags allow, it still is exactly that.
   */
  lemma {:induction false} PermissionsStay(y: System, run: seq<Action>, r: Frame, q: Page)
    requires SystemInv(y) && Legal(y, run) && IsRoot(y.mem, r) && Translate(y.mem.ram, r, q).Some?
    requires forall k :: 0 <= k < |run| ==> !Alters(run[k], q)
    ensures var ram, ram' := y.mem.ram, Run(y, run).mem.ram;
      && Effective(ram, r, q).Some? && Effective(ram', r, q).Some?
      && Allows(Effective(ram', r, q).value, Effective(ram, r, q).value)
      && (Effective(ram, r, q) == Some(Translate(ram, r, q).value.flags) ==>
            Effective(ram', r, q) == Effective(ram, r, q))
    decreases |run|
  {
    hide Inv, Effect, Next, SameView, Translate, Alters, PathFlags, PathOf, EntryAt, Grows;
    if run != [] {
      var y1 := Apply(y, run[0]);
      ActionKeeps(y, run[0]);
      ActionKeepsPage(y, run[0], r, q);
      ActionGrows(y, run[0]);
      NotNarrowed(y.mem, y1.mem, r, q);
      PermissionsStay(y1, run[1..], r, q);
    }
  }

  // --------------------------------------------------------------- kernel half

  /** All roots have the same kernel branches. */
  ghost predicate Agree(s: State)
  {
    forall r: Frame, r': Frame, j: Index :: IsRoot(s, r) && IsRoot(s, r') && Kernel(j) ==>
      Next(s.ram, r, j) == Next(s.ram, r', j)
  }

  /** Then they translate every kernel page alike. */
  lemma AgreeTranslates(s: State, r: Frame, r': Frame, p: Page)
    requires Agree(s) && IsRoot(s, r) && IsRoot(s, r') && Kernel(p.l4)
    ensures Translate(s.ram, r, p) == Translate(s.ram, r', p)
  {
    hide EntryAt, Next;
  }

  lemma ActionAgrees(y: System, a: Action)
    requires SystemInv(y) && Enabled(y, a) && Agree(y.mem)
    requires SlotOf(a).Some? && Kernel(SlotOf(a).value) ==> Next(y.mem.ram, y.cr3[a.core], SlotOf(a).value).Some?
    ensures Agree(Apply(y, a).mem)
  {
    hide Inv, Effect, SameView, Next;
    ActionKeeps(y, a);
    var s, s', root := y.mem, Apply(y, a).mem, y.cr3[a.core];
    forall r: Frame, j: Index | IsRoot(s', r) && Kernel(j) ensures Next(s'.ram, r, j) == Next(s.ram, root, j) {
      assert IsRoot(s, root);
      if IsRoot(s, r) {
        assert Next(s.ram, r, j) == Next(s.ram, root, j);
      }
    }
  }

  /**
    Kernel view agreement.  If the kernel slots that the run maps into were
    populated before it, then after it every table translates every kernel
    page alike, whichever table was active when it was mapped and whichever
    table a new one was cloned from.
   */
  lemma {:induction false} KernelAgreement(y: System, run: seq<Action>, slots: set<Index>)
    requires SystemInv(y) && Legal(y, run) && Agree(y.mem)
    requires forall i: Index :: i in slots ==> Next(y.mem.ram, y.mem.kernelRoot, i).Some?
    requires forall k :: 0 <= k < |run| && SlotOf(run[k]).Some? && Kernel(SlotOf(run[k]).value) ==>
      SlotOf(run[k]).value in slots
    ensures Agree(Run(y, run).mem)
    ensures forall r: Frame, r': Frame, p: Page ::
      IsRoot(Run(y, run).mem, r) && IsRoot(Run(y, run).mem, r') && Kernel(p.l4) ==>
      Translate(Run(y, run).mem.ram, r, p) == Translate(Run(y, run).mem.ram, r', p)
    decreases |run|
  {
    hide EntryAt, Inv, Effect, SameView, Next, Translate, SlotOf;
    if run == [] {
      forall r: Frame, r': Frame, p: Page | IsRoot(y.mem, r) && IsRoot(y.mem, r') && Kernel(p.l4)
        ensures Translate(y.mem.ram, r, p) == Translate(y.mem.ram, r', p)
      {
        AgreeTranslates(y.mem, r, r', p);
      }
    } else {
      var a := run[0];
      var y1 := Apply(y, a);
      RootIsRoot(y);
      ActionKeeps(y, a);
      ActionAgrees(y, a);
      KernelAgreement(y1, run[1..], slots);
    }
  }

  lemma RootIsRoot(y: System)
    requires SystemInv(y)
    ensures IsRoot(y.mem, y.mem.kernelRoot)
  {
  }

  /**
    And the condition is exact, whether the mapping succeeds or runs out of
    memory on the way: it sets the tables apart exactly if its slot is empty,
    there are two frames, one for the page and one for the branch, and there is
    another table.
   */
  lemma AgreesExactlyWhenPopulated(s: State, root: Frame, p: Page, fl: Flags)
    requires Inv(s) && IsRoot(s, root) && Agree(s) && Kernel(p.l4)
    ensures Agree(MapRamKernel(s, root, p, fl).state) <==>
      EntryAt(s.ram, root, p.l4) != UNUSED || s.free < 2 || forall r: Frame :: IsRoot(s, r) ==> r == root
    ensures var o := MapRamKernel(s, root, p, fl);
      o.result.Ok? && EntryAt(s.ram, root, p.l4) == UNUSED ==>
        forall r: Frame :: IsRoot(s, r) && r != root ==> Translate(o.state.ram, r, p) != Translate(o.state.ram, root, p)
  {
    hide EntryAt, NodeAt, Inv, MapRam, Missing, Obstructed, LeafUnused, L1Table, Translate, SameView;
    MapRamKeeps(s, root, p, fl);
    MapRamMeets(s, root, p, fl);
    SlotAfterMapRam(s, root, p, fl);
    var o := MapRam(s, root, p, fl);
    var s' := o.state;
    if EntryAt(s.ram, root, p.l4) == UNUSED {
      forall r: Frame | IsRoot(s, r) && r != root
        ensures s.free >= 2 ==> !Agree(s')
        ensures o.result.Ok? ==> Translate(s'.ram, r, p) != Translate(s'.ram, root, p)
      {
        assert Next(s'.ram, r, p.l4) == Next(s.ram, r, p.l4) == Next(s.ram, root, p.l4);
        NoBranchNoPage(s'.ram, r, p);
      }
    }
  }

  /** What mapping a page does to the root's entry on the way to it. */
  lemma SlotAfterMapRam(s: State, root: Frame, p: Page, fl: Flags)
    requires Inv(s) && IsRoot(s, root)
    ensures var s' := MapRam(s, root, p, fl).state;
      if EntryAt(s.ram, root, p.l4) == UNUSED && s.free >= 2 then Next(s'.ram, root, p.l4).Some?
      else Next(s'.ram, root, p.l4) == Next(s.ram, root, p.l4)
  {
    hide EntryAt, NodeAt, Inv, Take, MapTo, Next;
    if s.head.Some? {
      TakeExtends(s);
      SlotAfterMapTo(Take(s), root, p, s.head.value, fl);
    } else {
      NoFree(s);
    }
  }

  lemma NoFree(s: State)
    requires Inv(s) && s.head.None?
    ensures s.free == 0
  {
  }

  lemma SlotAfterMapTo(s: State, root: Frame, p: Page, f: Frame, fl: Flags)
    requires Inv(s) && IsRoot(s, root) && f in s.own && (s.own[f] == Held || s.own[f] == Foreign)
    ensures var s' := MapTo(s, root, p, f, fl).state;
      if EntryAt(s.ram, root, p.l4) == UNUSED && s.free >= 1 then Next(s'.ram, root, p.l4).Some?
      else Next(s'.ram, root, p.l4) == Next(s.ram, root, p.l4)
  {
    hide EntryAt, NodeAt, Inv, EnsureNext, Descend, Next, SetEntry;
    var o := EnsureNext(s, root, p.l4, fl);
    EnsureNextSpec(s, root, p.l4, fl);
    var rest := [p.l3, p.l2];
    assert PathOf(p) == [p.l4] + rest && PathOf(p)[1..] == rest;
    DescendUnfolds(s, root, PathOf(p), fl);
    if o.result.Ok? {
      var s1 := o.state;
      ExtendsTable(s, s1, root);
      DescendMeets(s1, o.result.value, rest, fl);
      var d := Descend(s1, o.result.value, rest, fl);
      ExtendsTable(s1, d.state, root);
      if d.result.Ok? && EntryAt(d.state.ram, d.result.value, p.l1) == UNUSED {
        LeafKeepsNext(d.state, d.result.value, p.l1, f, fl, root, p.l4);
      }
      UsedHasNext(s, root, p.l4);
    } else {
      FailedStep(s, root, p.l4, fl);
    }
  }

  lemma DescendUnfolds(s: State, t: Frame, path: seq<Index>, fl: Flags)
    requires path != []
    ensures var o := EnsureNext(s, t, path[0], fl);
      Descend(s, t, path, fl) == if o.result.Err? then o else Descend(o.state, o.result.value, path[1..], fl)
  {
    hide EnsureNext;
  }

  lemma LeafKeepsNext(s: State, t: Frame, i: Index, f: Frame, fl: Flags, root: Frame, j: Index)
    requires Inv(s) && t in s.own && Level(s.own[t]) == 1 && IsRoot(s, root)
    ensures Next(SetLeaf(s, t, i, f, fl).ram, root, j) == Next(s.ram, root, j)
  {
    hide EntryAt, NodeAt, Inv, SetEntry;
    InvKeys(s);
    SetEntryEffect(s.ram, t, i, LeafEntry(f, fl));
  }

  lemma UsedHasNext(s: State, t: Frame, i: Index)
    requires Inv(s) && t in s.own && Level(s.own[t]) >= 2
    ensures EntryAt(s.ram, t, i) != UNUSED && !EntryAt(s.ram, t, i).huge ==> Next(s.ram, t, i).Some?
  {
    hide EntryAt, Inv;
    if EntryAt(s.ram, t, i) != UNUSED {
      UsedIsPresent(s, t, i);
    }
  }

  /** A step that fails, on a huge page or without memory, leaves the entry leading where it led. */
  lemma FailedStep(s: State, t: Frame, i: Index, fl: Flags)
    requires Inv(s) && t in s.own && Level(s.own[t]) >= 2 && EnsureNext(s, t, i, fl).result.Err?
    ensures Next(EnsureNext(s, t, i, fl).state.ram, t, i) == Next(s.ram, t, i)
  {
    hide EntryAt, NodeAt, Inv, SetEntry;
    InvKeys(s);
    SetEntryEffect(s.ram, t, i, Widened(EntryAt(s.ram, t, i), fl));
  }

  /**
    So the order matters: a table created first and a kernel slot populated
    afterwards, from any state with five free frames, leave a kernel page that
    one table maps and the other does not.
   */
  lemma TwoTablesDisagree(s: State, root: Frame, p: Page, fl: Flags)
    requires Inv(s) && IsRoot(s, root) && Kernel(p.l4) && EntryAt(s.ram, root, p.l4) == UNUSED && s.free >= 5
    ensures var o1 := CreateTable(s, root); o1.result.Ok? && IsRoot(o1.state, o1.result.value)
    ensures var o1 := CreateTable(s, root);
      var o2 := MapRamKernel(o1.state, root, p, fl);
      o2.result.Ok? && Translate(o2.state.ram, root, p).Some? && Translate(o2.state.ram, o1.result.value, p).None?
  {
    hide EntryAt, NodeAt, Inv, CreateTable, MapRam, SameView, Translate;
    CreateTableMeets(s, root);
    var o1 := CreateTable(s, root);
    InvKeys(s);
    Untouched(s.ram, o1.state.ram, root);
    assert EntryAt(o1.state.ram, root, p.l4) == UNUSED;
    MapRamMeets(o1.state, root, p, fl);
    MapRamKeeps(o1.state, root, p, fl);
    NoBranchNoPage(MapRam(o1.state, root, p, fl).state.ram, o1.result.value, p);
  }

  lemma NoBranchNoPage(ram: Ram, r: Frame, p: Page)
    requires Next(ram, r, p.l4).None?
    ensures Translate(ram, r, p).None?
  {
  }

  // --------------------------------------------------- the free list, as memory sees it

  /** At most `n` nodes of the chain that starts at `head`, following the stored links. */
  function Chain(ram: Ram, head: Option<Frame>, n: nat): (c: seq<Frame>)
    decreases n
  {
    if n == 0 || head.None? then []
    else [head.value] + Chain(ram, NodeAt(ram, head.value).next, n - 1)
  }

  lemma {:induction false} ChainFrom(s: State, k: nat, n: nat)
    requires ListOk(s) && k <= |s.list|
    ensures Chain(s.ram, NextOf(s.list, k), n) == if k + n <= |s.list| then s.list[k..k + n] else s.list[k..]
    decreases n
  {
    hide NodeAt, ListOk;
    if n > 0 && k < |s.list| {
      ChainFrom(s, k + 1, n - 1);
      StoredLink(s, k);
      assert NextOf(s.list, k) == Some(s.list[k]);
      var rest := if k + n <= |s.list| then s.list[k + 1..k + n] else s.list[k + 1..];
      assert Chain(s.ram, NextOf(s.list, k), n) == [s.list[k]] + rest;
    }
  }

  lemma StoredLink(s: State, k: nat)
    requires ListOk(s) && k < |s.list|
    ensures NodeAt(s.ram, s.list[k]).next == NextOf(s.list, k + 1)
  {
    hide NodeAt, NextOf;
  }

  /**
    Free-list integrity.  After every run, following the links stored in the
    frames from `free_memory_head` visits exactly `free_frames` distinct frames
    and then stops, and no such frame is mapped under any table or is itself a
    table of any walk.
   */
  lemma FreeListIntact(y: System, run: seq<Action>)
    requires SystemInv(y) && Legal(y, run)
    ensures var s := Run(y, run).mem; forall n: nat :: n >= s.free ==> Chain(s.ram, s.head, n) == s.list
    ensures var s := Run(y, run).mem; |s.list| == s.free && NoDup(s.list)
    ensures var s := Run(y, run).mem; forall k :: 0 <= k < |s.list| ==> s.list[k] in s.pool && s.list[k] != 0
    ensures var s := Run(y, run).mem; forall r: Frame, p: Page :: IsRoot(s, r) ==> Unreachable(s, r, p)
  {
    hide EntryAt, NodeAt, DownOk, UpOk, Chain, Run, Legal, Unreachable;
    RunKeepsInv(y, run);
    var s := Run(y, run).mem;
    forall n: nat | n >= s.free ensures Chain(s.ram, s.head, n) == s.list {
      ChainFrom(s, 0, n);
    }
    forall r: Frame, p: Page | IsRoot(s, r) ensures Unreachable(s, r, p) {
      FreeIsUnreachable(s, r, p);
    }
  }

  function Tables(s: State): (r: set<Frame>) { set f: Frame | f in s.pool && Level(OwnerOf(s, f)) >= 1 }
  function DataFrames(s: State): (r: set<Frame>)
  {
    set f: Frame | f in s.pool && OwnerOf(s, f).Child? && Level(OwnerOf(s, f)) == 0
  }
  function HeldFrames(s: State): (r: set<Frame>) { set f: Frame | f in s.pool && OwnerOf(s, f).Held? }
  function FreeFrames(s: State): (r: set<Frame>) { set f: Frame | f in s.pool && OwnerOf(s, f).FreeFrame? }

  /**
    Conservation.  After every run the managed frames split into free frames,
    page tables, mapped data and frames held by a caller, and
    `get_memory_utilization` reports the last three.
   */
  lemma Conservation(y: System, run: seq<Action>)
    requires SystemInv(y) && Legal(y, run)
    ensures var s := Run(y, run).mem;
      s.total == s.free + |Tables(s)| + |DataFrames(s)| + |HeldFrames(s)| && s.total == |y.mem.pool|
    ensures var s := Run(y, run).mem;
      s.free <= s.total && Utilization(s).0 == |Tables(s)| + |DataFrames(s)| + |HeldFrames(s)|
  {
    hide Inv, Run, Legal, Tables, DataFrames, HeldFrames;
    RunKeepsInv(y, run);
    FramesSplit(Run(y, run).mem);
    assert y.mem.total == |y.mem.pool| by { TotalIsPool(y.mem); }
  }

  lemma TotalIsPool(s: State)
    requires Inv(s)
    ensures s.total == |s.pool|
  {
  }

  /** One state: the four uses partition the pool, and the free ones are the list. */
  lemma FramesSplit(s: State)
    requires Inv(s)
    ensures s.total == s.free + |Tables(s)| + |DataFrames(s)| + |HeldFrames(s)|
  {
    hide EntryAt, NodeAt, DownOk, UpOk, CleanOk, NextOf;
    var t, d, h, f := Tables(s), DataFrames(s), HeldFrames(s), FreeFrames(s);
    assert |f| == s.free by { DistinctSize(s.list, f); }
    hide ListOk;
    assert s.pool == f + t + d + h;
    assert f !! t !! d !! h;
  }

  /** `get_memory_utilization`. */
  function Utilization(s: State): (u: (nat, nat)) { (if s.free <= s.total then s.total - s.free else 0, s.total) }
}
