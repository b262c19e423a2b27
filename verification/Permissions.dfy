/**
  What a page may be used for.  The processor combines the flags of all four
  entries on the way to a page (section 4.6 of the Intel SDM, Volume 3A): it
  may be written, or used from user mode, only if every entry allows it, and
  executed only if no entry forbids it.  Mapping a page gives it exactly the
  permissions asked for, and nothing that is done to other pages narrows them.
 */
module Permissions {
  import opened Words
  import opened PhysicalMemory
  import opened PageTables
  import opened MemoryOps

  /** What two entries on the same way allow together. */
  function Both(a: Flags, b: Flags): (c: Flags)
  {
    Flags(a.writable && b.writable, a.user && b.user, a.noExec || b.noExec)
  }

  /** What the entries along `path` below table `t` allow together. */
  function PathFlags(ram: Ram, t: Frame, path: seq<Index>): (f: Flags)
    decreases |path|
  {
    if path == [] then Flags(true, true, false)
    else
      var e := EntryAt(ram, t, path[0]);
      Both(FlagsOf(e), PathFlags(ram, e.frame, path[1..]))
  }

  /** The effective permissions of page `p` under the table `root`. */
  function Effective(ram: Ram, root: Frame, p: Page): (f: Option<Flags>)
  {
    var l := Translate(ram, root, p);
    if l.None? then None else Some(Both(PathFlags(ram, root, PathOf(p)), l.value.flags))
  }

  /** `a` allows whatever `b` allows. */
  predicate Allows(a: Flags, b: Flags)
  {
    (b.writable ==> a.writable) && (b.user ==> a.user) && (a.noExec ==> b.noExec)
  }

  /** An entry that exists on the way along `path` forbids execution. */
  predicate Barred(ram: Ram, t: Frame, path: seq<Index>)
    decreases |path|
  {
    path != [] && EntryAt(ram, t, path[0]) != UNUSED && !EntryAt(ram, t, path[0]).huge &&
    (EntryAt(ram, t, path[0]).noExec || Barred(ram, EntryAt(ram, t, path[0]).frame, path[1..]))
  }

  // --------------------------------------------------------------- entries only grow

  /** Entry `e'` leads where `e` led, and allows no less. */
  predicate Wider(e': Entry, e: Entry)
  {
    && e' != UNUSED && e'.frame == e.frame && e'.present == e.present && e'.huge == e.huge && e'.noExec == e.noExec
    && (e.writable ==> e'.writable) && (e.user ==> e'.user)
  }

  /** Tables stay tables, and their entries that lead to tables stay and at most become wider. */
  ghost predicate Grows(s: State, s': State)
  {
    && (forall g: Frame :: g in s.own && Level(s.own[g]) >= 1 ==> g in s'.own && s'.own[g] == s.own[g])
    && (forall g: Frame, j: Index :: g in s.own && Level(s.own[g]) >= 2 && EntryAt(s.ram, g, j) != UNUSED ==>
          Wider(EntryAt(s'.ram, g, j), EntryAt(s.ram, g, j)))
  }

  lemma GrowsTrans(s: State, s1: State, s2: State)
    requires Grows(s, s1) && Grows(s1, s2)
    ensures Grows(s, s2)
  {
    hide EntryAt;
    forall g: Frame, j: Index | g in s.own && Level(s.own[g]) >= 2 && EntryAt(s.ram, g, j) != UNUSED
      ensures Wider(EntryAt(s2.ram, g, j), EntryAt(s.ram, g, j))
    {
      assert Wider(EntryAt(s1.ram, g, j), EntryAt(s.ram, g, j));
      assert Wider(EntryAt(s2.ram, g, j), EntryAt(s1.ram, g, j));
    }
  }

  /** It is enough that tables keep their use and all their entries but leaves. */
  lemma GrowsIfKept(s: State, s': State)
    requires forall g: Frame :: g in s.own && Level(s.own[g]) >= 1 ==> g in s'.own && s'.own[g] == s.own[g]
    requires forall g: Frame, j: Index :: g in s.own && Level(s.own[g]) >= 2 ==>
      EntryAt(s'.ram, g, j) == EntryAt(s.ram, g, j)
    ensures Grows(s, s')
  {
    hide EntryAt;
  }

  lemma TakeGrows(s: State)
    requires Inv(s)
    ensures Grows(s, Take(s))
  {
    hide EntryAt, NodeAt, Inv;
    if s.head.Some? {
      TakeExtends(s);
    }
    GrowsIfKept(s, Take(s));
  }

  lemma LinkGrows(s: State, t: Frame, i: Index, f: Frame, fl: Flags)
    requires Inv(s) && t in s.own && Level(s.own[t]) >= 2 && EntryAt(s.ram, t, i) == UNUSED
    requires f in s.own && s.own[f] == Held
    ensures Grows(s, Link(s, t, i, f, fl))
  {
    hide EntryAt, NodeAt, Inv, SetEntry;
    InvKeys(s);
    LinkEntries(s, t, i, f, fl);
  }

  lemma WidenGrows(s: State, t: Frame, i: Index, fl: Flags)
    requires Inv(s) && t in s.own && Level(s.own[t]) >= 2 && EntryAt(s.ram, t, i) != UNUSED
    ensures Grows(s, Widen(s, t, i, fl))
  {
    hide EntryAt, NodeAt, Inv, SetEntry;
    InvKeys(s);
    UsedIsPresent(s, t, i);
    SetEntryEffect(s.ram, t, i, Widened(EntryAt(s.ram, t, i), fl));
  }

  lemma EnsureGrows(s: State, t: Frame, i: Index, fl: Flags)
    requires Inv(s) && t in s.own && Level(s.own[t]) >= 2
    ensures Grows(s, EnsureNext(s, t, i, fl).state)
  {
    hide EntryAt, NodeAt, Inv, Link, Widen, Take, Grows;
    if EntryAt(s.ram, t, i) != UNUSED {
      WidenGrows(s, t, i, fl);
    } else if s.head.Some? {
      TakeExtends(s);
      TakeGrows(s);
      LinkGrows(Take(s), t, i, s.head.value, fl);
      GrowsTrans(s, Take(s), Link(Take(s), t, i, s.head.value, fl));
    } else {
      GrowsRefl(s);
    }
  }

  lemma GrowsRefl(s: State)
    ensures Grows(s, s)
  {
    hide EntryAt;
  }

  lemma {:induction false} DescendGrows(s: State, t: Frame, path: seq<Index>, fl: Flags)
    requires Inv(s) && t in s.own && Level(s.own[t]) == |path| + 1
    ensures Grows(s, Descend(s, t, path, fl).state)
    decreases |path|
  {
    hide EntryAt, Inv, EnsureNext, Grows, Extends;
    if path == [] {
      GrowsRefl(s);
    } else {
      EnsureGrows(s, t, path[0], fl);
      EnsureNextSpec(s, t, path[0], fl);
      var o := EnsureNext(s, t, path[0], fl);
      StepInv(s, t, path[0], o);
      if o.result.Ok? {
        DescendGrows(o.state, o.result.value, path[1..], fl);
        GrowsTrans(s, o.state, Descend(s, t, path, fl).state);
      }
    }
  }

  /** Rewriting an entry of an L1 table, with or without a change of use of a frame that is no table. */
  lemma LeafGrows(s: State, s': State, t: Frame, i: Index)
    requires t in s.own && Level(s.own[t]) == 1 && t in s.ram
    requires exists e: Entry :: s'.ram == SetEntry(s.ram, t, i, e)
    requires forall g: Frame :: g in s.own && Level(s.own[g]) >= 1 ==> g in s'.own && s'.own[g] == s.own[g]
    ensures Grows(s, s')
  {
    hide EntryAt, SetEntry;
    var e: Entry :| s'.ram == SetEntry(s.ram, t, i, e);
    SetEntryEffect(s.ram, t, i, e);
    GrowsIfKept(s, s');
  }

  lemma MapToGrows(s: State, root: Frame, p: Page, f: Frame, fl: Flags)
    requires Inv(s) && IsRoot(s, root) && f in s.own && (s.own[f] == Held || s.own[f] == Foreign)
    ensures Grows(s, MapTo(s, root, p, f, fl).state)
  {
    hide EntryAt, Inv, Descend, SetEntry, PathOf, Missing, Obstructed, WalkPath, Grows;
    assert |PathOf(p)| == 3 by { PathLength(p); }
    DescendGrows(s, root, PathOf(p), fl);
    DescendMeets(s, root, PathOf(p), fl);
    var d := Descend(s, root, PathOf(p), fl);
    if d.result.Ok? && EntryAt(d.state.ram, d.result.value, p.l1) == UNUSED {
      InvKeys(d.state);
      var s' := SetLeaf(d.state, d.result.value, p.l1, f, fl);
      LeafGrows(d.state, s', d.result.value, p.l1);
      GrowsTrans(s, d.state, s');
    }
  }

  lemma MapRamGrows(s: State, root: Frame, p: Page, fl: Flags)
    requires Inv(s) && IsRoot(s, root)
    ensures Grows(s, MapRam(s, root, p, fl).state)
  {
    hide EntryAt, NodeAt, Inv, MapTo, Grows, Take;
    if s.head.Some? {
      TakeExtends(s);
      TakeGrows(s);
      MapToGrows(Take(s), root, p, s.head.value, fl);
      GrowsTrans(s, Take(s), MapRam(s, root, p, fl).state);
    } else {
      GrowsRefl(s);
    }
  }

  lemma ChangeFlagsGrows(s: State, root: Frame, p: Page, fl: Flags)
    requires Inv(s) && IsRoot(s, root)
    ensures Grows(s, ChangeFlags(s, root, p, fl).state)
  {
    hide EntryAt, Inv, SetEntry, L1Table, Grows;
    GrowsRefl(s);
    var t := L1Table(s.ram, root, p);
    if t.Some? && EntryAt(s.ram, t.value, p.l1) != UNUSED {
      InvKeys(s);
      WalkOwner(s, root, p);
      LeafGrows(s, ChangeFlags(s, root, p, fl).state, t.value, p.l1);
    }
  }

  lemma UnmapGrows(s: State, root: Frame, p: Page)
    requires Inv(s) && IsRoot(s, root)
    ensures Grows(s, Unmap(s, root, p).state)
  {
    hide EntryAt, NodeAt, Inv, SetEntry, L1Table, Grows, Updates;
    GrowsRefl(s);
    UnmapMeets(s, root, p);
    if Translate(s.ram, root, p).Some? {
      InvKeys(s);
      WalkOwner(s, root, p);
      LeafGrows(s, Unmap(s, root, p).state, L1Table(s.ram, root, p).value, p.l1);
    }
  }

  lemma GiveGrows(s: State, f: Frame)
    requires Inv(s) && f in s.own && s.own[f] == Held
    ensures Grows(s, Give(s, f))
  {
    hide EntryAt, NodeAt, Inv, SetNode;
    InvKeys(s);
    SetNodeFrame(s.ram, f, Node(s.head, f));
    AllUntouchedBut(s.ram, Give(s, f).ram, {f});
  }

  lemma UnmapRamGrows(s: State, root: Frame, p: Page)
    requires Inv(s) && IsRoot(s, root)
    requires Translate(s.ram, root, p).Some? ==> Translate(s.ram, root, p).value.frame in s.pool
    ensures Grows(s, UnmapRam(s, root, p).state)
  {
    hide EntryAt, NodeAt, Inv, Unmap, Give, Grows, Updates, OthersKept, Translate;
    UnmapGrows(s, root, p);
    UnmapMeets(s, root, p);
    var o := Unmap(s, root, p);
    if o.result.Ok? {
      GiveGrows(o.state, o.result.value);
      GrowsTrans(s, o.state, Give(o.state, o.result.value));
    }
  }

  lemma CreateGrows(s: State, root: Frame)
    requires Inv(s) && IsRoot(s, root)
    ensures Grows(s, CreateTable(s, root).state)
  {
    hide EntryAt, NodeAt, Inv, AddRoot, Take;
    if s.head.Some? {
      TakeExtends(s);
      var s1, f := Take(s), s.head.value;
      InvKeys(s1);
      AddRootEntries(s1, f, root);
      AddRootFields(s1, f, root);
    }
  }

  lemma PokeGrows(s: State, f: Frame, off: nat, b: Byte)
    requires Inv(s) && f in s.own && Level(s.own[f]) == 0
    ensures Grows(s, Poke(s, f, off, b))
  {
    hide EntryAt, NodeAt, Inv;
    InvKeys(s);
    if off < 4096 {
      AllUntouchedBut(s.ram, Poke(s, f, off, b).ram, {f});
    }
  }

  // ------------------------------------------------- nothing narrows what a page may be used for

  lemma {:induction false} GrownPath(s: State, s': State, t: Frame, path: seq<Index>)
    requires Inv(s) && Grows(s, s') && t in s.own && Level(s.own[t]) == |path| + 1 && WalkPath(s.ram, t, path).Some?
    ensures Allows(PathFlags(s'.ram, t, path), PathFlags(s.ram, t, path))
    ensures PathFlags(s'.ram, t, path).noExec == PathFlags(s.ram, t, path).noExec
    decreases |path|
  {
    hide EntryAt, Inv;
    if path != [] {
      var e := EntryAt(s.ram, t, path[0]);
      NextOwner(s, t, path[0]);
      assert Wider(EntryAt(s'.ram, t, path[0]), e);
      GrownPath(s, s', e.frame, path[1..]);
    }
  }

  /**
    While a page translates as before and the tables only grow, its effective
    permissions are not narrowed; if they were all that its leaf allows, they
    still are exactly that.
   */
  lemma NotNarrowed(s: State, s': State, r: Frame, q: Page)
    requires Inv(s) && IsRoot(s, r) && Grows(s, s')
    requires Translate(s.ram, r, q).Some? && Translate(s'.ram, r, q) == Translate(s.ram, r, q)
    ensures Effective(s.ram, r, q).Some? && Effective(s'.ram, r, q).Some?
    ensures Allows(Effective(s'.ram, r, q).value, Effective(s.ram, r, q).value)
    ensures Effective(s'.ram, r, q).value.noExec == Effective(s.ram, r, q).value.noExec
    ensures Effective(s.ram, r, q) == Some(Translate(s.ram, r, q).value.flags) ==>
      Effective(s'.ram, r, q) == Effective(s.ram, r, q)
  {
    hide EntryAt, Inv, Grows, PathFlags, PathOf, WalkPath, L1Table;
    assert |PathOf(q)| == 3 by { PathLength(q); }
    L1TableIsWalk(s.ram, r, q);
    GrownPath(s, s', r, PathOf(q));
  }

  // ------------------------------------------------- mapping gives what is asked for

  /** One step down: the entry followed allows what is asked for and bars execution only if it did before. */
  lemma EnsureEntry(s: State, t: Frame, i: Index, fl: Flags)
    requires Inv(s) && t in s.own && Level(s.own[t]) >= 2 && EnsureNext(s, t, i, fl).result.Ok?
    ensures var o := EnsureNext(s, t, i, fl); var e := EntryAt(o.state.ram, t, i);
      && e.frame == o.result.value && (fl.writable ==> e.writable) && (fl.user ==> e.user)
      && e.noExec == (EntryAt(s.ram, t, i) != UNUSED && EntryAt(s.ram, t, i).noExec)
      && (forall g: Frame, j: Index :: g in s.own && Level(s.own[g]) >= 1 && g != t ==>
            EntryAt(o.state.ram, g, j) == EntryAt(s.ram, g, j))
  {
    hide EntryAt, NodeAt, Inv, SetEntry, NextOf;
    InvKeys(s);
    if EntryAt(s.ram, t, i) == UNUSED {
      TakeExtends(s);
      InvKeys(Take(s));
      LinkEntries(Take(s), t, i, s.head.value, fl);
    } else {
      SetEntryEffect(s.ram, t, i, Widened(EntryAt(s.ram, t, i), fl));
    }
  }

  /** Walking on below a table changes no table above it. */
  lemma {:induction false} DescendAbove(s: State, t: Frame, path: seq<Index>, fl: Flags, g: Frame, j: Index)
    requires Inv(s) && t in s.own && Level(s.own[t]) == |path| + 1 && Descend(s, t, path, fl).result.Ok?
    requires g in s.own && Level(s.own[g]) > |path| + 1
    ensures EntryAt(Descend(s, t, path, fl).state.ram, g, j) == EntryAt(s.ram, g, j)
    decreases |path|
  {
    hide EntryAt, Inv, EnsureNext, Extends;
    if path != [] {
      var o := EnsureNext(s, t, path[0], fl);
      EnsureNextSpec(s, t, path[0], fl);
      StepInv(s, t, path[0], o);
      EnsureEntry(s, t, path[0], fl);
      ExtendsTable(s, o.state, g);
      DescendAbove(o.state, o.result.value, path[1..], fl, g, j);
    }
  }

  /** Entries of other tables than `t` decide whether the way below `t` is barred. */
  lemma {:induction false} BarredKept(s: State, ram': Ram, t: Frame, n: Frame, path: seq<Index>)
    requires Inv(s) && t in s.own && n in s.own && Level(s.own[n]) == |path| + 1 < Level(s.own[t])
    requires forall g: Frame, j: Index :: g in s.own && Level(s.own[g]) >= 1 && g != t ==>
      EntryAt(ram', g, j) == EntryAt(s.ram, g, j)
    ensures Barred(ram', n, path) == Barred(s.ram, n, path)
    decreases |path|
  {
    hide EntryAt, Inv;
    if path != [] {
      var e := EntryAt(s.ram, n, path[0]);
      assert EntryAt(ram', n, path[0]) == e;
      if e != UNUSED && !e.huge {
        UsedIsPresent(s, n, path[0]);
        NextOwner(s, n, path[0]);
        BarredKept(s, ram', t, e.frame, path[1..]);
      }
    }
  }

  /** Walking down with creation leaves a way that allows what is asked for, and is barred only if it was. */
  lemma {:induction false} DescendWidens(s: State, t: Frame, path: seq<Index>, fl: Flags)
    requires Inv(s) && t in s.own && Level(s.own[t]) == |path| + 1 && Descend(s, t, path, fl).result.Ok?
    ensures var f := PathFlags(Descend(s, t, path, fl).state.ram, t, path);
      (fl.writable ==> f.writable) && (fl.user ==> f.user) && f.noExec == Barred(s.ram, t, path)
    decreases |path|
  {
    hide EntryAt, Inv, EnsureNext, Extends, Next;
    if path != [] {
      var o, rest := EnsureNext(s, t, path[0], fl), path[1..];
      var s1, n, e := o.state, o.result.value, EntryAt(s.ram, t, path[0]);
      EnsureNextSpec(s, t, path[0], fl);
      StepInv(s, t, path[0], o);
      EnsureEntry(s, t, path[0], fl);
      ExtendsTable(s, s1, t);
      DescendWidens(s1, n, rest, fl);
      DescendAbove(s1, n, rest, fl, t, path[0]);
      if e == UNUSED {
        assert rest != [] ==> EntryAt(s1.ram, n, rest[0]) == UNUSED;
      } else {
        FollowedOwner(s, t, path[0]);
        BarredKept(s, s1.ram, t, n, rest);
      }
    }
  }

  lemma FollowedOwner(s: State, t: Frame, i: Index)
    requires Inv(s) && t in s.own && Level(s.own[t]) >= 2 && EntryAt(s.ram, t, i) != UNUSED
    requires !EntryAt(s.ram, t, i).huge
    ensures var n := EntryAt(s.ram, t, i).frame; n in s.own && Level(s.own[n]) == Level(s.own[t]) - 1
  {
    hide EntryAt, Inv;
    UsedIsPresent(s, t, i);
    NextOwner(s, t, i);
  }

  /** Entries of L1 tables have no part in what the way to a page allows. */
  lemma {:induction false} PathFlagsKept(s: State, ram': Ram, t: Frame, path: seq<Index>)
    requires Inv(s) && t in s.own && Level(s.own[t]) == |path| + 1 && WalkPath(s.ram, t, path).Some?
    requires forall g: Frame, j: Index :: g in s.own && Level(s.own[g]) >= 2 ==>
      EntryAt(ram', g, j) == EntryAt(s.ram, g, j)
    ensures PathFlags(ram', t, path) == PathFlags(s.ram, t, path)
    decreases |path|
  {
    hide EntryAt, Inv;
    if path != [] {
      NextOwner(s, t, path[0]);
      PathFlagsKept(s, ram', EntryAt(s.ram, t, path[0]).frame, path[1..]);
    }
  }

  /**
    Mapping gives a page exactly the permissions asked for, through all four
    entries, unless an entry that was there before bars execution.
   */
  lemma MapToEffective(s: State, root: Frame, p: Page, f: Frame, fl: Flags)
    requires Inv(s) && IsRoot(s, root) && f in s.own && (s.own[f] == Held || s.own[f] == Foreign)
    requires MapTo(s, root, p, f, fl).result.Ok?
    ensures Effective(MapTo(s, root, p, f, fl).state.ram, root, p) ==
      Some(Flags(fl.writable, fl.user, fl.noExec || Barred(s.ram, root, PathOf(p))))
  {
    hide EntryAt, Inv, Descend, SetEntry, PathOf, Missing, Obstructed, WalkPath, PathFlags, Barred, L1Table,
      Translate, SameSlot;
    assert |PathOf(p)| == 3 by { PathLength(p); }
    MapToMeets(s, root, p, f, fl);
    DescendMeets(s, root, PathOf(p), fl);
    DescendWidens(s, root, PathOf(p), fl);
    var d := Descend(s, root, PathOf(p), fl);
    var s1, t := d.state, d.result.value;
    InvKeys(s1);
    SetEntryEffect(s1.ram, t, p.l1, LeafEntry(f, fl));
    PathFlagsKept(s1, SetLeaf(s1, t, p.l1, f, fl).ram, root, PathOf(p));
    assert SameSlot(MapTo(s, root, p, f, fl).state.ram, root, root,
      p.l4) by { SlotRefl(MapTo(s, root, p, f, fl).state.ram, root, p.l4); }
  }

  lemma SlotRefl(ram: Ram, root: Frame, i: Index)
    ensures SameSlot(ram, root, root, i)
  {
  }

  lemma MapRamEffective(s: State, root: Frame, p: Page, fl: Flags)
    requires Inv(s) && IsRoot(s, root) && MapRam(s, root, p, fl).result.Ok?
    ensures Effective(MapRam(s, root, p, fl).state.ram, root, p) ==
      Some(Flags(fl.writable, fl.user, fl.noExec || Barred(s.ram, root, PathOf(p))))
  {
    hide EntryAt, NodeAt, Inv, MapTo, Effective, Barred, PathOf, Take;
    TakeExtends(s);
    MapToEffective(Take(s), root, p, s.head.value, fl);
  }

  /** In a table that this kernel made, the way to a user page is never barred. */
  lemma {:induction false} NeverBarred(s: State, t: Frame, path: seq<Index>)
    requires Inv(s) && t in s.own && t in s.pool && Level(s.own[t]) == |path| + 1
    requires s.own[t].Root? && path != [] ==> !Kernel(path[0])
    ensures !Barred(s.ram, t, path)
    decreases |path|
  {
    hide EntryAt, Inv;
    if path != [] && EntryAt(s.ram, t, path[0]) != UNUSED {
      CleanStep(s, t, path[0]);
      NeverBarred(s, EntryAt(s.ram, t, path[0]).frame, path[1..]);
    }
  }

  /** So under such a table a user page gets exactly the permissions asked for, and user access. */
  lemma MapUserEffective(s: State, root: Frame, p: Page, fl: Flags)
    requires Inv(s) && IsRoot(s, root) && root in s.pool && MapRamUser(s, root, p, fl).result.Ok?
    ensures Effective(MapRamUser(s, root, p, fl).state.ram, root, p) == Some(Flags(fl.writable, true, fl.noExec))
  {
    hide EntryAt, Inv, MapRam, Effective, Barred, PathOf;
    assert |PathOf(p)| == 3 && PathOf(p)[0] == p.l4 by { PathLength(p); }
    NeverBarred(s, root, PathOf(p));
    MapRamEffective(s, root, p, fl.(user := true));
  }

  /** The way to a mapped page is barred exactly if it was before it was last walked. */
  lemma {:induction false} BarredIsNoExec(s: State, t: Frame, path: seq<Index>)
    requires Inv(s) && t in s.own && Level(s.own[t]) == |path| + 1 && WalkPath(s.ram, t, path).Some?
    ensures PathFlags(s.ram, t, path).noExec == Barred(s.ram, t, path)
    decreases |path|
  {
    hide EntryAt, Inv;
    if path != [] {
      NextOwner(s, t, path[0]);
      BarredIsNoExec(s, EntryAt(s.ram, t, path[0]).frame, path[1..]);
    }
  }

  /**
    `update_flags` rewrites the leaf only: the page then may be used for what
    both the flags and the entries above it allow, which is all of the flags
    exactly if those entries do.
   */
  lemma ChangeFlagsEffective(s: State, root: Frame, p: Page, fl: Flags)
    requires Inv(s) && IsRoot(s, root) && ChangeFlags(s, root, p, fl).result.Ok?
    ensures var s' := ChangeFlags(s, root, p, fl).state; var above := PathFlags(s.ram, root, PathOf(p));
      && Effective(s'.ram, root, p) == Some(Both(above, fl))
      && (Effective(s'.ram, root, p) == Some(fl) <==> Allows(above, fl))
  {
    hide EntryAt, Inv, SetEntry, PathOf, WalkPath, PathFlags, Translate, SameSlot, L1Table, OthersKept, LeafUnused;
    assert |PathOf(p)| == 3 by { PathLength(p); }
    ChangeFlagsMeets(s, root, p, fl);
    var s' := ChangeFlags(s, root, p, fl).state;
    var t := L1Table(s.ram, root, p);
    L1TableIsWalk(s.ram, root, p);
    WalkOwner(s, root, p);
    InvKeys(s);
    SetEntryEffect(s.ram, t.value, p.l1, LeafEntry(EntryAt(s.ram, t.value, p.l1).frame, fl));
    PathFlagsKept(s, s'.ram, root, PathOf(p));
    SlotRefl(s'.ram, root, p.l4);
  }

  /** Taking permissions away from a user page, other than execution, leaves exactly those that remain. */
  lemma NarrowedExactly(s: State, root: Frame, p: Page, fl: Flags)
    requires Inv(s) && IsRoot(s, root) && root in s.pool && !Kernel(p.l4) && ChangeFlags(s, root, p, fl).result.Ok?
    requires Effective(s.ram, root, p).Some?
    requires (fl.writable ==> Effective(s.ram, root, p).value.writable)
    requires (fl.user ==> Effective(s.ram, root, p).value.user)
    ensures Effective(ChangeFlags(s, root, p, fl).state.ram, root, p) == Some(fl)
  {
    hide EntryAt, Inv, PathOf, WalkPath, PathFlags, L1Table, ChangeFlags, Barred;
    assert |PathOf(p)| == 3 && PathOf(p)[0] == p.l4 by { PathLength(p); }
    L1TableIsWalk(s.ram, root, p);
    NeverBarred(s, root, PathOf(p));
    BarredIsNoExec(s, root, PathOf(p));
    ChangeFlagsEffective(s, root, p, fl);
  }

  /** A new table gives kernel pages the permissions they have under the table it was cloned from. */
  lemma CreateTableEffective(s: State, root: Frame, q: Page)
    requires Inv(s) && IsRoot(s, root) && CreateTable(s, root).result.Ok? && Kernel(q.l4)
    ensures var o := CreateTable(s, root); Effective(o.state.ram, o.result.value, q) == Effective(s.ram, root, q)
  {
    hide EntryAt, NodeAt, Inv, AddRoot, Take, PathFlags, WalkPath, Translate, L1Table;
    CreateTableMeets(s, root);
    TakeExtends(s);
    var s1, f := Take(s), s.head.value;
    var ram' := CreateTable(s, root).state.ram;
    InvKeys(s1);
    AddRootEntries(s1, f, root);
    if Translate(s.ram, root, q).Some? {
      PathLength(q);
      L1TableIsWalk(s1.ram, root, q);
      assert L1Table(s1.ram, root, q).Some? by { MappedHasTable(s1.ram, root, q); }
      PathOfNew(s1, ram', root, f, PathOf(q));
    }
  }

  lemma MappedHasTable(ram: Ram, root: Frame, q: Page)
    requires Translate(ram, root, q).Some?
    ensures L1Table(ram, root, q).Some?
  {
  }

  lemma PathOfNew(s: State, ram': Ram, root: Frame, f: Frame, path: seq<Index>)
    requires Inv(s) && IsRoot(s, root) && |path| == 3 && WalkPath(s.ram, root, path).Some?
    requires f in s.own && s.own[f] == Held && EntryAt(ram', f, path[0]) == EntryAt(s.ram, root, path[0])
    requires forall g: Frame, j: Index :: g != f ==> EntryAt(ram', g, j) == EntryAt(s.ram, g, j)
    ensures PathFlags(ram', f, path) == PathFlags(s.ram, root, path)
  {
    hide EntryAt, Inv;
    NextOwner(s, root, path[0]);
    PathFlagsKept(s, ram', EntryAt(s.ram, root, path[0]).frame, path[1..]);
  }
}
