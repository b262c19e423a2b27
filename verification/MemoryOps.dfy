/**
  The operations of `Memory` (kernel/src/memory.rs) on the state of
  PageTables.  `map_to`, `update_flags` and `unmap` walk the four levels of the
  table that the calling core has active; a panic of the kernel is an `Err`
  that keeps whatever the operation had already written.
 */
module MemoryOps {
  import opened Words
  import opened PhysicalMemory
  import opened PageTables

  datatype Failure = OutOfMemory | AlreadyMapped | HugeParent | NotMapped | OutOfRange

  datatype Result<+T> = Ok(value: T) | Err(error: Failure)

  datatype Outcome = Outcome(state: State, result: Result<Frame>)

  // ------------------------------------------------------------------ operations

  /** `create_next_table`: follow entry `i` of `t`, creating the table below if there is none. */
  function EnsureNext(s: State, t: Frame, i: Index, fl: Flags): (o: Outcome)
  {
    var e := EntryAt(s.ram, t, i);
    if e == UNUSED then
      if s.head.None? then Outcome(s, Err(OutOfMemory))
      else
        var f := NodeAt(s.ram, s.head.value).frame;
        Outcome(Link(Take(s), t, i, f, fl), Ok(f))
    else
      var s' := Widen(s, t, i, fl);
      if e.huge then Outcome(s', Err(HugeParent)) else Outcome(s', Ok(e.frame))
  }

  /** Follow the indices in `path` below table `t`, creating what is missing. */
  function Descend(s: State, t: Frame, path: seq<Index>, fl: Flags): (o: Outcome)
    decreases |path|
  {
    if path == [] then Outcome(s, Ok(t))
    else
      var o := EnsureNext(s, t, path[0], fl);
      if o.result.Err? then o else Descend(o.state, o.result.value, path[1..], fl)
  }

  function PathOf(p: Page): (path: seq<Index>) { [p.l4, p.l3, p.l2] }

  /** `Mapper::map_to`. */
  function MapTo(s: State, root: Frame, p: Page, f: Frame, fl: Flags): (o: Outcome)
  {
    var d := Descend(s, root, PathOf(p), fl);
    if d.result.Err? then d
    else if EntryAt(d.state.ram, d.result.value, p.l1) != UNUSED then Outcome(d.state, Err(AlreadyMapped))
    else Outcome(SetLeaf(d.state, d.result.value, p.l1, f, fl), Ok(f))
  }

  function MapRam(s: State, root: Frame, p: Page, fl: Flags): (o: Outcome)
  {
    if s.head.None? then Outcome(s, Err(OutOfMemory))
    else MapTo(Take(s), root, p, NodeAt(s.ram, s.head.value).frame, fl)
  }

  function MapRamKernel(s: State, root: Frame, p: Page, fl: Flags): (o: Outcome)
  {
    if !Kernel(p.l4) then Outcome(s, Err(OutOfRange)) else MapRam(s, root, p, fl)
  }

  function MapRamUser(s: State, root: Frame, p: Page, fl: Flags): (o: Outcome)
  {
    if p.l4 != 0 then Outcome(s, Err(OutOfRange)) else MapRam(s, root, p, fl.(user := true))
  }

  /** `Mapper::update_flags`. */
  function ChangeFlags(s: State, root: Frame, p: Page, fl: Flags): (o: Outcome)
  {
    var t := L1Table(s.ram, root, p);
    if t.None? || EntryAt(s.ram, t.value, p.l1) == UNUSED then Outcome(s, Err(NotMapped))
    else Outcome(Reflag(s, t.value, p.l1, fl), Ok(EntryAt(s.ram, t.value, p.l1).frame))
  }

  /** `Mapper::unmap`. */
  function Unmap(s: State, root: Frame, p: Page): (o: Outcome)
  {
    var l := Translate(s.ram, root, p);
    if l.None? then Outcome(s, Err(NotMapped))
    else Outcome(ClearLeaf(s, L1Table(s.ram, root, p).value, p.l1), Ok(l.value.frame))
  }

  function UnmapRam(s: State, root: Frame, p: Page): (o: Outcome)
  {
    var o := Unmap(s, root, p);
    if o.result.Err? then o else Outcome(Give(o.state, o.result.value), o.result)
  }

  function CreateTable(s: State, root: Frame): (o: Outcome)
  {
    if s.head.None? then Outcome(s, Err(OutOfMemory))
    else
      var f := NodeAt(s.ram, s.head.value).frame;
      Outcome(AddRoot(Take(s), f, root), Ok(f))
  }

  // -------------------------------------------------------------- what a walk needs

  function WalkPath(ram: Ram, t: Frame, path: seq<Index>): (n: Option<Frame>)
    decreases |path|
  {
    if path == [] then Some(t)
    else
      var n := Next(ram, t, path[0]);
      if n.None? then None else WalkPath(ram, n.value, path[1..])
  }

  lemma L1TableIsWalk(ram: Ram, r: Frame, p: Page)
    ensures L1Table(ram, r, p) == WalkPath(ram, r, PathOf(p))
  {
    hide EntryAt, Next;
    assert PathOf(p)[1..] == [p.l3, p.l2] && [p.l3, p.l2][1..] == [p.l2];
    var t3 := Next(ram, r, p.l4);
    if t3.Some? {
      assert WalkPath(ram, r, PathOf(p)) == WalkPath(ram, t3.value, [p.l3, p.l2]);
      var t2 := Next(ram, t3.value, p.l3);
      if t2.Some? {
        assert WalkPath(ram, t3.value, [p.l3, p.l2]) == WalkPath(ram, t2.value, [p.l2]);
        var t1 := Next(ram, t2.value, p.l2);
        if t1.Some? {
          assert WalkPath(ram, t2.value, [p.l2]) == WalkPath(ram, t1.value, []) by { assert [p.l2][1..] == []; }
        }
      }
    }
  }

  /** The number of tables that have to be created to reach the end of `path`. */
  function Missing(ram: Ram, t: Frame, path: seq<Index>): (n: nat)
    ensures n <= |path|
    decreases |path|
  {
    if path == [] then 0
    else if EntryAt(ram, t, path[0]) == UNUSED then |path|
    else if EntryAt(ram, t, path[0]).huge then 0
    else Missing(ram, EntryAt(ram, t, path[0]).frame, path[1..])
  }

  /** A huge page lies on the way. */
  predicate Obstructed(ram: Ram, t: Frame, path: seq<Index>)
    decreases |path|
  {
    path != [] && EntryAt(ram, t, path[0]) != UNUSED &&
    (EntryAt(ram, t, path[0]).huge || Obstructed(ram, EntryAt(ram, t, path[0]).frame, path[1..]))
  }

  // ------------------------------------------------------------------- extension

  /** Nothing that was in use in `s` is used differently in `s'`, and no translation changed. */
  ghost predicate Extends(s: State, s': State)
  {
    && Inv(s')
    && s'.own.Keys == s.own.Keys && s'.pool == s.pool && s'.total == s.total && s'.kernelRoot == s.kernelRoot
    && (forall g: Frame :: g in s.own && !s.own[g].FreeFrame? ==> s'.own[g] == s.own[g])
    && (forall g: Frame :: g in s.own && s.own[g].FreeFrame? ==> !s'.own[g].Root?)
    && (forall g: Frame :: g in s.own && !s.own[g].FreeFrame? && Level(s.own[g]) == 0 ==>
          g in s.ram && g in s'.ram && s'.ram[g] == s.ram[g])
    && (forall g: Frame, j: Index :: g in s.own && Level(s.own[g]) >= 1 && Next(s.ram, g, j).Some? ==>
          Next(s'.ram, g, j) == Next(s.ram, g, j))
    && (forall r: Frame, q: Page :: IsRoot(s, r) ==> Translate(s'.ram, r, q) == Translate(s.ram, r, q))
  }

  lemma ExtendsTrans(s: State, s1: State, s2: State)
    requires Extends(s, s1) && Extends(s1, s2)
    ensures Extends(s, s2)
  {
    hide EntryAt, NodeAt, Inv, Next, Translate, L1Table;
  }

  lemma ExtendsRefl(s: State)
    requires Inv(s)
    ensures Extends(s, s)
  {
    hide EntryAt, NodeAt, ListOk, DownOk, UpOk, Next, Translate, L1Table;
  }

  lemma TakeExtends(s: State)
    requires Inv(s) && s.head.Some?
    ensures s.head.value in s.own && s.own[s.head.value] == FreeFrame
    ensures NodeAt(s.ram, s.head.value).frame == s.head.value
    ensures Take(s).own == s.own[s.head.value := Held] && Take(s).ram == s.ram && s.free >= 1
    ensures Take(s).free == s.free - 1
    ensures Extends(s, Take(s))
  {
    hide EntryAt, NodeAt, NextOf, Next, Translate, L1Table;
    TakeInv(s);
    hide Inv;
  }

  lemma LinkExtends(s: State, t: Frame, i: Index, f: Frame, fl: Flags)
    requires Inv(s) && t in s.own && Level(s.own[t]) >= 2 && EntryAt(s.ram, t, i) == UNUSED && f in s.own
    requires s.own[f] == Held
    ensures var s' := Link(s, t, i, f, fl);
      && Inv(s') && s'.own == s.own[f := BelowOwner(s.own[t], t, i)]
      && s'.pool == s.pool && s'.total == s.total && s'.kernelRoot == s.kernelRoot && s'.free == s.free &&
          s'.ram.Keys == s.ram.Keys
      && (forall g: Frame :: g in s.own && g != f && Level(s.own[g]) == 0 ==> g in s.ram && s'.ram[g] == s.ram[g])
      && (forall g: Frame, j: Index :: g != f && Next(s.ram, g, j).Some? ==> Next(s'.ram, g, j) == Next(s.ram, g, j))
      && (forall r: Frame, q: Page :: IsRoot(s, r) ==> Translate(s'.ram, r, q) == Translate(s.ram, r, q))
      && Next(s'.ram, t, i) == Some(f)
      && (forall j: Index :: EntryAt(s'.ram, f, j) == UNUSED)
  {
    hide EntryAt, NodeAt, ListOk, DownOk, UpOk, SetEntry;
    InvKeys(s);
    LinkInv(s, t, i, f, fl);
    LinkEntries(s, t, i, f, fl);
    var s' := Link(s, t, i, f, fl);
    forall r: Frame, q: Page | IsRoot(s, r) ensures Translate(s'.ram, r, q) == Translate(s.ram, r, q) {
      LinkWalk(s, t, i, f, fl, r, q);
    }
  }

  /** Everything `EnsureNext` promises. */
  ghost predicate EnsureSpec(s: State, t: Frame, i: Index, o: Outcome)
  {
    var s' := o.state;
    var e := EntryAt(s.ram, t, i);
    && Extends(s, s')
    && (o.result.Ok? <==> if e == UNUSED then s.free >= 1 else !e.huge)
    && (o.result.Err? ==> o.result.error == (if e == UNUSED then OutOfMemory else HugeParent) && s'.free == s.free)
    && (o.result.Ok? ==>
          var n := o.result.value;
          && s.free >= s'.free == s.free - (if e == UNUSED then 1 else 0)
          && Next(s'.ram, t, i) == Some(n)
          && n in s'.own && t in s.own && Level(s'.own[n]) == Level(s.own[t]) - 1
          && (if e == UNUSED then forall j: Index :: EntryAt(s'.ram, n, j) == UNUSED
              else n == e.frame && forall g: Frame, j: Index :: g != t ==>
                EntryAt(s'.ram, g, j) == EntryAt(s.ram, g, j)))
  }

  lemma EnsureCreates(s: State, t: Frame, i: Index, fl: Flags)
    requires Inv(s) && t in s.own && Level(s.own[t]) >= 2 && EntryAt(s.ram, t, i) == UNUSED
    ensures EnsureSpec(s, t, i, EnsureNext(s, t, i, fl))
  {
    hide EntryAt, NodeAt, ListOk, DownOk, UpOk, SetEntry, Link, Take;
    if s.head.None? {
      ExtendsRefl(s);
      assert s.free == 0 by { EmptyMeansNone(s); }
    } else {
      var f := s.head.value;
      TakeExtends(s);
      var s1 := Take(s);
      LinkExtends(s1, t, i, f, fl);
      var s' := Link(s1, t, i, f, fl);
      LevelBound(s, t);
      assert Extends(s, s');
    }
  }

  lemma EmptyMeansNone(s: State)
    requires ListOk(s)
    ensures s.head.None? <==> s.free == 0
  {
  }

  lemma LevelBound(s: State, t: Frame)
    requires Inv(s) && t in s.own
    ensures Level(s.own[t]) <= 4
  {
    assert UpOk1(s, t);
  }

  lemma EnsureFollows(s: State, t: Frame, i: Index, fl: Flags)
    requires Inv(s) && t in s.own && Level(s.own[t]) >= 2 && EntryAt(s.ram, t, i) != UNUSED
    ensures EnsureSpec(s, t, i, EnsureNext(s, t, i, fl))
  {
    hide EntryAt, NodeAt, ListOk, UpOk, SetEntry, Translate, L1Table;
    var e := EntryAt(s.ram, t, i);
    assert LinkOk(s, t, i, e);
    hide DownOk;
    var s' := Widen(s, t, i, fl);
    InvKeys(s);
    WidenInv(s, t, i, fl);
    SetEntryEffect(s.ram, t, i, Widened(e, fl));
    SetEntryFrame(s.ram, t, i, Widened(e, fl));
    assert Extends(s, s') by {
      hide Inv;
      forall r: Frame, q: Page | IsRoot(s, r) ensures Translate(s'.ram, r, q) == Translate(s.ram, r, q) {
        WidenWalk(s, t, i, fl, r, q);
      }
    }
  }

  lemma EnsureNextSpec(s: State, t: Frame, i: Index, fl: Flags)
    requires Inv(s) && t in s.own && Level(s.own[t]) >= 2
    ensures EnsureSpec(s, t, i, EnsureNext(s, t, i, fl))
  {
    hide Inv, EnsureSpec, EnsureNext, EntryAt;
    if EntryAt(s.ram, t, i) == UNUSED {
      EnsureCreates(s, t, i, fl);
    } else {
      EnsureFollows(s, t, i, fl);
    }
  }

  /** What walking down with creation promises, for a path of any length. */
  ghost predicate DescendSpec(s: State, t: Frame, path: seq<Index>, o: Outcome)
  {
    var s' := o.state;
    var m := Missing(s.ram, t, path);
    && Extends(s, s')
    && (o.result.Ok? <==> s.free >= m && !Obstructed(s.ram, t, path))
    && (o.result.Err? ==> o.result.error == if Obstructed(s.ram, t, path) then HugeParent else OutOfMemory)
    && (o.result.Ok? ==>
          var n := o.result.value;
          && s'.free == s.free - m
          && WalkPath(s'.ram, t, path) == Some(n)
          && n in s'.own && Level(s'.own[n]) == 1
          && (if m > 0 then forall j: Index :: EntryAt(s'.ram, n, j) == UNUSED
              else WalkPath(s.ram, t, path) == Some(n) && n in s.own && Level(s.own[n]) == 1
                   && forall j: Index :: EntryAt(s'.ram, n, j) == EntryAt(s.ram, n, j)))
  }

  /** A walk that starts below table `t` does not notice changes inside `t`. */
  lemma {:induction false} BelowKept(s: State, ram': Ram, t: Frame, n: Frame, path: seq<Index>)
    requires Inv(s) && t in s.own && n in s.own && Level(s.own[n]) == |path| + 1 < Level(s.own[t])
    requires forall g: Frame, j: Index :: g != t ==> EntryAt(ram', g, j) == EntryAt(s.ram, g, j)
    ensures Missing(ram', n, path) == Missing(s.ram, n, path)
    ensures Obstructed(ram', n, path) == Obstructed(s.ram, n, path)
    ensures WalkPath(ram', n, path) == WalkPath(s.ram, n, path)
    decreases |path|
  {
    hide EntryAt, Inv;
    if path != [] {
      var e := EntryAt(s.ram, n, path[0]);
      assert EntryAt(ram', n, path[0]) == e;
      if e != UNUSED && !e.huge {
        UsedIsPresent(s, n, path[0]);
        NextOwner(s, n, path[0]);
        BelowKept(s, ram', t, e.frame, path[1..]);
      }
    }
  }

  lemma {:induction false} WalkExtends(s: State, s': State, t: Frame, path: seq<Index>)
    requires Inv(s) && Extends(s, s') && t in s.own && Level(s.own[t]) == |path| + 1 && WalkPath(s.ram, t, path).Some?
    ensures WalkPath(s'.ram, t, path) == WalkPath(s.ram, t, path)
    ensures var n := WalkPath(s.ram, t, path).value; n in s.own && Level(s.own[n]) == 1
    decreases |path|
  {
    hide EntryAt, Inv;
    if path != [] {
      NextOwner(s, t, path[0]);
      WalkExtends(s, s', Next(s.ram, t, path[0]).value, path[1..]);
    }
  }

  lemma {:induction false} DescendMeets(s: State, t: Frame, path: seq<Index>, fl: Flags)
    requires Inv(s) && t in s.own && Level(s.own[t]) == |path| + 1
    ensures DescendSpec(s, t, path, Descend(s, t, path, fl))
    decreases |path|
  {
    hide EntryAt, Inv, EnsureNext;
    if path == [] {
      ExtendsRefl(s);
    } else {
      EnsureNextSpec(s, t, path[0], fl);
      var o := EnsureNext(s, t, path[0], fl);
      var e := EntryAt(s.ram, t, path[0]);
      if o.result.Ok? {
        DescendStep(s, t, path, fl);
      }
    }
  }

  lemma ExtendsTable(s: State, s': State, t: Frame)
    requires Extends(s, s') && t in s.own && Level(s.own[t]) >= 1
    ensures t in s'.own && s'.own[t] == s.own[t]
    ensures forall j: Index :: Next(s.ram, t, j).Some? ==> Next(s'.ram, t, j) == Next(s.ram, t, j)
  {
    hide Inv, Next, Translate;
  }

  lemma StepInv(s: State, t: Frame, i: Index, o: Outcome)
    requires EnsureSpec(s, t, i, o)
    ensures Inv(o.state)
  {
    hide Inv;
  }

  lemma {:induction false} DescendStep(s: State, t: Frame, path: seq<Index>, fl: Flags)
    requires Inv(s) && t in s.own && Level(s.own[t]) == |path| + 1 && path != []
    requires var o := EnsureNext(s, t, path[0], fl); EnsureSpec(s, t, path[0], o) && o.result.Ok?
    ensures DescendSpec(s, t, path, Descend(s, t, path, fl))
    decreases |path|, 0
  {
    hide EntryAt, Inv, EnsureNext, Extends;
    var o := EnsureNext(s, t, path[0], fl);
    var e := EntryAt(s.ram, t, path[0]);
    var s1, n, rest := o.state, o.result.value, path[1..];
    StepInv(s, t, path[0], o);
    DescendMeets(s1, n, rest, fl);
    var d := Descend(s1, n, rest, fl);
    assert d == Descend(s, t, path, fl);
    ExtendsTrans(s, s1, d.state);
    ExtendsTable(s, s1, t);
    ExtendsTable(s1, d.state, t);
    if e == UNUSED {
      assert rest != [] ==> EntryAt(s1.ram, n, rest[0]) == UNUSED;
    } else {
      UsedIsPresent(s, t, path[0]);
      NextOwner(s, t, path[0]);
      BelowKept(s, s1.ram, t, n, rest);
      if WalkPath(s.ram, t, path).Some? {
        WalkExtends(s, s1, t, path);
      }
    }
  }

  // ------------------------------------------------- the flat map behind the tables

  /** Roots `r` and `root` reach the same table through L4 slot `i`. */
  predicate SameSlot(ram: Ram, r: Frame, root: Frame, i: Index)
  {
    r == root || Next(ram, r, i) == Next(ram, root, i)
  }

  /**
    The page-table forest, read as a map from (root, page) to leaf, changed at
    page `p` only: under `root` and under the roots that share its branch.
   */
  ghost predicate Updates(s: State, s': State, root: Frame, p: Page, l: Option<Leaf>)
  {
    forall r: Frame, q: Page :: IsRoot(s, r) ==>
      Translate(s'.ram, r, q) == if q == p && SameSlot(s'.ram, r, root, p.l4) then l else Translate(s.ram, r, q)
  }

  /** Rewriting the L1 entry of page `p` is such an update. */
  lemma LeafUpdate(s: State, s': State, root: Frame, p: Page, t: Frame)
    requires Inv(s) && IsRoot(s, root) && L1Table(s.ram, root, p) == Some(t)
    requires forall g: Frame, j: Index :: g != t || j != p.l1 ==> EntryAt(s'.ram, g, j) == EntryAt(s.ram, g, j)
    ensures t in s.own && s.own[t].Child? && s.own[t].level == 1
    ensures Updates(s, s', root, p, LeafOf(EntryAt(s'.ram, t, p.l1)))
  {
    hide EntryAt, Inv;
    WalkOwner(s, root, p);
    forall r: Frame, q: Page | IsRoot(s, r)
      ensures Translate(s'.ram, r, q) ==
        if q == p && SameSlot(s'.ram, r, root, p.l4) then LeafOf(EntryAt(s'.ram, t, p.l1)) else Translate(s.ram, r, q)
    {
      LeafWalk(s, s'.ram, t, p.l1, r, q);
      if L1Table(s.ram, r, q) == Some(t) {
        SameL1SamePath(s, root, p, r, q);
      }
    }
  }

  /** Under a root that does not share slot `i` (a user slot of another root, say) nothing changed. */
  lemma UserSlotsNotShared(s: State, root: Frame, r: Frame, i: Index)
    requires Inv(s) && IsRoot(s, root) && IsRoot(s, r) && r != root && !Kernel(i)
    requires Next(s.ram, root, i).Some?
    ensures !SameSlot(s.ram, r, root, i)
  {
    hide EntryAt, Inv, Next;
    NextOwner(s, root, i);
    if Next(s.ram, r, i).Some? {
      NextOwner(s, r, i);
    }
  }

  predicate LeafUnused(ram: Ram, root: Frame, p: Page)
  {
    var t := L1Table(ram, root, p);
    t.None? || EntryAt(ram, t.value, p.l1) == UNUSED
  }

  /** Frames keep their use and, unless they are tables or free, their bytes. */
  ghost predicate OthersKept(s: State, s': State, f: Frame)
  {
    && s'.own.Keys == s.own.Keys && s'.pool == s.pool && s'.total == s.total && s'.kernelRoot == s.kernelRoot
    && (forall g: Frame :: g in s.own && !s.own[g].FreeFrame? && g != f ==> s'.own[g] == s.own[g])
    && (forall g: Frame :: g in s.own && s.own[g].FreeFrame? ==> !s'.own[g].Root?)
    && (forall g: Frame :: g in s.own && !s.own[g].FreeFrame? && Level(s.own[g]) == 0 && g in s.ram ==>
          g in s'.ram && s'.ram[g] == s.ram[g])
  }

  ghost predicate MapSpec(s: State, root: Frame, p: Page, f: Frame, fl: Flags, o: Outcome)
  {
    var s' := o.state;
    var m := Missing(s.ram, root, PathOf(p));
    var obstructed := Obstructed(s.ram, root, PathOf(p));
    && Inv(s')
    && (o.result.Ok? <==> !obstructed && s.free >= m && LeafUnused(s.ram, root, p))
    && (o.result.Err? ==>
          && Extends(s, s')
          && o.result.error == if obstructed then HugeParent else if s.free < m then OutOfMemory else AlreadyMapped)
    && (o.result.Ok? ==>
          && o.result.value == f
          && s'.free == s.free - m
          && Updates(s, s', root, p, Some(Leaf(f, fl)))
          && Next(s'.ram, root, p.l4).Some?
          && OthersKept(s, s', f)
          && f in s.own && f in s'.own &&
              (if s.own[f].Foreign? then s'.own[f].Foreign? else s'.own[f].Child? && s'.own[f].level == 0))
  }

  lemma MapToMeets(s: State, root: Frame, p: Page, f: Frame, fl: Flags)
    requires Inv(s) && IsRoot(s, root) && f in s.own && (s.own[f] == Held || s.own[f] == Foreign)
    ensures MapSpec(s, root, p, f, fl, MapTo(s, root, p, f, fl))
  {
    hide EntryAt, Inv, Descend, WalkPath, Missing, Obstructed, Translate, L1Table, PathOf;
    assert |PathOf(p)| == 3 by { PathLength(p); }
    DescendMeets(s, root, PathOf(p), fl);
    L1TableIsWalk(s.ram, root, p);
    var d := Descend(s, root, PathOf(p), fl);
    if d.result.Ok? {
      var s1, t := d.state, d.result.value;
      L1TableIsWalk(s1.ram, root, p);
      if Missing(s.ram, root, PathOf(p)) > 0 {
        MissingMeansNone(s.ram, root, PathOf(p));
      }
      if EntryAt(s1.ram, t, p.l1) == UNUSED {
        MapLeaf(s, s1, root, p, t, f, fl);
      }
    }
  }

  lemma PathLength(p: Page)
    ensures |PathOf(p)| == 3 && PathOf(p)[0] == p.l4
  {
  }

  lemma {:induction false} MissingMeansNone(ram: Ram, t: Frame, path: seq<Index>)
    requires Missing(ram, t, path) > 0
    ensures WalkPath(ram, t, path).None?
    decreases |path|
  {
    hide EntryAt;
    var e := EntryAt(ram, t, path[0]);
    if e != UNUSED {
      MissingMeansNone(ram, e.frame, path[1..]);
    }
  }

  /** The last step of `map_to`, seen from the state before the walk. */
  lemma MapLeaf(s: State, s1: State, root: Frame, p: Page, t: Frame, f: Frame, fl: Flags)
    requires Extends(s, s1) && IsRoot(s, root) && L1Table(s1.ram, root, p) == Some(t)
    requires t in s1.own && Level(s1.own[t]) == 1 && EntryAt(s1.ram, t, p.l1) == UNUSED
    requires f in s.own && (s.own[f] == Held || s.own[f] == Foreign)
    ensures var s' := SetLeaf(s1, t, p.l1, f, fl);
      && Inv(s') && s'.free == s1.free
      && Updates(s, s', root, p, Some(Leaf(f, fl)))
      && Next(s'.ram, root, p.l4).Some?
      && OthersKept(s, s', f)
      && f in s'.own && (if s.own[f].Foreign? then s'.own[f].Foreign? else s'.own[f] == Child(0, t, p.l1))
  {
    hide EntryAt, Inv, SetEntry, Translate;
    var s' := SetLeaf(s1, t, p.l1, f, fl);
    InvKeys(s1);
    SetLeafInv(s1, t, p.l1, f, fl);
    SetEntryEffect(s1.ram, t, p.l1, LeafEntry(f, fl));
    SetEntryFrame(s1.ram, t, p.l1, LeafEntry(f, fl));
    assert LeafOf(EntryAt(s'.ram, t, p.l1)) == Some(Leaf(f, fl));
    LeafUpdate(s1, s', root, p, t);
    assert Next(s'.ram, root, p.l4) == Next(s1.ram, root, p.l4);
  }

  /**
    `map_ram_kernel` and `map_ram_user` after their range check: one frame for
    the page and one for each of the at most three missing tables.
   */
  ghost predicate MapRamSpec(s: State, root: Frame, p: Page, fl: Flags, o: Outcome)
  {
    var s' := o.state;
    var cost := 1 + Missing(s.ram, root, PathOf(p));
    var obstructed := Obstructed(s.ram, root, PathOf(p));
    && Inv(s')
    && 1 <= cost <= 4
    && (o.result.Ok? <==> !obstructed && s.free >= cost && LeafUnused(s.ram, root, p))
    && (o.result.Err? ==>
          && Extends(s, s')
          && o.result.error == if s.free > 0 && obstructed then HugeParent else if s.free < cost then OutOfMemory
              else AlreadyMapped)
    && (o.result.Ok? ==>
          var f := o.result.value;
          && s'.free == s.free - cost
          && f in s.own && f in s'.own && s.own[f].FreeFrame? && s'.own[f].Child? && s'.own[f].level == 0
          && Updates(s, s', root, p, Some(Leaf(f, fl)))
          && Next(s'.ram, root, p.l4).Some?
          && OthersKept(s, s', f))
  }

  lemma MapRamMeets(s: State, root: Frame, p: Page, fl: Flags)
    requires Inv(s) && IsRoot(s, root)
    ensures MapRamSpec(s, root, p, fl, MapRam(s, root, p, fl))
  {
    hide EntryAt, NodeAt, ListOk, DownOk, UpOk, MapTo, Missing, Obstructed, Translate, L1Table, PathOf, Take;
    PathLength(p);
    EmptyMeansNone(s);
    if s.head.None? {
      ExtendsRefl(s);
    } else {
      TakeExtends(s);
      hide Inv;
      var s1, f := Take(s), s.head.value;
      MapToMeets(s1, root, p, f, fl);
      var o := MapTo(s1, root, p, f, fl);
      if o.result.Err? {
        ExtendsTrans(s, s1, o.state);
      }
    }
  }

  /** `change_flags`: one page, same frame. */
  lemma ChangeFlagsMeets(s: State, root: Frame, p: Page, fl: Flags)
    requires Inv(s) && IsRoot(s, root)
    ensures var o := ChangeFlags(s, root, p, fl);
      && Inv(o.state)
      && (o.result.Ok? <==> !LeafUnused(s.ram, root, p))
      && (o.result.Err? ==> o.state == s)
      && (o.result.Ok? ==>
            && o.state == s.(ram := o.state.ram)
            && Updates(s, o.state, root, p, Some(Leaf(o.result.value, fl)))
            && (Translate(s.ram, root, p).Some? ==> Translate(s.ram, root, p).value.frame == o.result.value)
            && Next(o.state.ram, root, p.l4).Some?
            && OthersKept(s, o.state, o.result.value))
  {
    hide EntryAt, NodeAt, Inv, SetEntry;
    var t := L1Table(s.ram, root, p);
    if t.Some? && EntryAt(s.ram, t.value, p.l1) != UNUSED {
      var s' := Reflag(s, t.value, p.l1, fl);
      var e := EntryAt(s.ram, t.value, p.l1);
      InvKeys(s);
      WalkOwner(s, root, p);
      ReflagInv(s, t.value, p.l1, fl);
      SetEntryEffect(s.ram, t.value, p.l1, LeafEntry(e.frame, fl));
      SetEntryFrame(s.ram, t.value, p.l1, LeafEntry(e.frame, fl));
      LeafUpdate(s, s', root, p, t.value);
      assert Next(s'.ram, root, p.l4) == Next(s.ram, root, p.l4);
    }
  }

  /** `unmap`: one page; a managed frame is handed to the caller. */
  lemma UnmapMeets(s: State, root: Frame, p: Page)
    requires Inv(s) && IsRoot(s, root)
    ensures var o := Unmap(s, root, p);
      && Inv(o.state)
      && (o.result.Ok? <==> Translate(s.ram, root, p).Some?)
      && (o.result.Err? ==> o.state == s)
      && (o.result.Ok? ==>
            var f := o.result.value;
            && o.state == s.(ram := o.state.ram, own := o.state.own)
            && f == Translate(s.ram, root, p).value.frame
            && f in s.own && f in o.state.own
            && (if f in s.pool then s.own[f].Child? && s.own[f].level == 0 && o.state.own[f] == Held
                  else s.own[f].Foreign? && o.state.own == s.own)
            && Updates(s, o.state, root, p, None)
            && Next(o.state.ram, root, p.l4).Some?
            && OthersKept(s, o.state, f))
  {
    hide EntryAt, NodeAt, ListOk, UpOk, SetEntry;
    if Translate(s.ram, root, p).Some? {
      var t := L1Table(s.ram, root, p).value;
      var e := EntryAt(s.ram, t, p.l1);
      WalkOwner(s, root, p);
      assert LinkOk(s, t, p.l1, e);
      ClearLeafInv(s, t, p.l1);
      hide DownOk;
      UnmapEffect(s, root, p);
    }
  }

  lemma UnmapEffect(s: State, root: Frame, p: Page)
    requires Inv(s) && IsRoot(s, root) && Translate(s.ram, root, p).Some?
    ensures var s' := Unmap(s, root, p).state; var f := Translate(s.ram, root, p).value.frame;
      && Updates(s, s', root, p, None) && Next(s'.ram, root, p.l4).Some?
      && (f in s.own ==> OthersKept(s, s', f))
  {
    hide EntryAt, NodeAt, Inv, SetEntry;
    var s' := Unmap(s, root, p).state;
    var t := L1Table(s.ram, root, p).value;
    WalkOwner(s, root, p);
    InvKeys(s);
    SetEntryEffect(s.ram, t, p.l1, UNUSED);
    SetEntryFrame(s.ram, t, p.l1, UNUSED);
    LeafUpdate(s, s', root, p, t);
    assert Next(s'.ram, root, p.l4) == Next(s.ram, root, p.l4);
  }

  /** `unmap_ram`: exactly one frame returns to the free list. */
  lemma UnmapRamMeets(s: State, root: Frame, p: Page)
    requires Inv(s) && IsRoot(s, root)
    requires Translate(s.ram, root, p).Some? ==> Translate(s.ram, root, p).value.frame in s.pool
    ensures var o := UnmapRam(s, root, p);
      && Inv(o.state)
      && (o.result.Ok? <==> Translate(s.ram, root, p).Some?)
      && (o.result.Err? ==> o.state == s)
      && (o.result.Ok? ==>
            var f := o.result.value;
            && f == Translate(s.ram, root, p).value.frame && f in s.own && f in o.state.own
            && o.state.free == s.free + 1 && o.state.head == Some(f) && o.state.own[f] == FreeFrame
            && Updates(s, o.state, root, p, None)
            && Next(o.state.ram, root, p.l4).Some?
            && o.state.own.Keys == s.own.Keys && o.state.pool == s.pool && o.state.total == s.total &&
                o.state.kernelRoot == s.kernelRoot
            && (forall g: Frame :: g in s.own && g != f && !s.own[g].FreeFrame? ==> o.state.own[g] == s.own[g])
            && (forall g: Frame :: g in s.own && s.own[g].FreeFrame? ==> !o.state.own[g].Root?)
            && (forall g: Frame ::
                  g in s.own && g in s.ram && g != f && !s.own[g].FreeFrame? && Level(s.own[g]) == 0 ==>
                    g in o.state.ram && o.state.ram[g] == s.ram[g]))
  {
    hide EntryAt, NodeAt, Inv, Unmap, Translate, SetNode, L1Table;
    UnmapMeets(s, root, p);
    var u := Unmap(s, root, p);
    if u.result.Ok? {
      var f := u.result.value;
      GiveInv(u.state, f);
      InvKeys(u.state);
      var s' := Give(u.state, f);
      SetNodeFrame(u.state.ram, f, Node(u.state.head, f));
      GiveWalks(u.state, f);
      assert forall r: Frame :: IsRoot(s, r) ==> IsRoot(u.state, r);
    }
  }

  lemma GiveWalks(s: State, f: Frame)
    requires Inv(s) && f in s.own && s.own[f] == Held
    ensures forall r: Frame, q: Page :: IsRoot(s, r) ==> Translate(Give(s, f).ram, r, q) == Translate(s.ram, r, q)
    ensures forall r: Frame, i: Index :: IsRoot(s, r) ==> Next(Give(s, f).ram, r, i) == Next(s.ram, r, i)
  {
    hide EntryAt, NodeAt, Inv, SetNode, Translate, L1Table;
    InvKeys(s);
    var s' := Give(s, f);
    SetNodeFrame(s.ram, f, Node(s.head, f));
    AllUntouchedBut(s.ram, s'.ram, {f});
    forall r: Frame, q: Page | IsRoot(s, r) ensures Translate(s'.ram, r, q) == Translate(s.ram, r, q) {
      WalkKept(s, s'.ram, r, q);
    }
  }

  /** `create_user_page_table`: the kernel half of the active table, an empty user half. */
  lemma CreateTableMeets(s: State, root: Frame)
    requires Inv(s) && IsRoot(s, root)
    ensures var o := CreateTable(s, root);
      && Inv(o.state)
      && (o.result.Ok? <==> s.free >= 1)
      && (o.result.Err? ==> o.state == s)
      && (o.result.Ok? ==>
            var f := o.result.value;
            && f in s.own && s.own[f].FreeFrame? && o.state.own == s.own[f := Root]
            && o.state.free == s.free - 1 && o.state.pool == s.pool && o.state.total == s.total &&
                o.state.kernelRoot == s.kernelRoot
            && (forall q: Page ::
                  Translate(o.state.ram, f, q) == if Kernel(q.l4) then Translate(s.ram, root, q) else None)
            && (forall i: Index :: Next(o.state.ram, f, i) == if Kernel(i) then Next(s.ram, root, i) else None)
            && (forall r: Frame, i: Index :: IsRoot(s, r) ==> Next(o.state.ram, r, i) == Next(s.ram, r, i))
            && (forall r: Frame, q: Page :: IsRoot(s, r) ==> Translate(o.state.ram, r, q) == Translate(s.ram, r, q))
            && (forall g: Frame :: g in s.ram && g != f ==> g in o.state.ram && o.state.ram[g] == s.ram[g]))
  {
    hide EntryAt, NodeAt, ListOk, DownOk, UpOk, AddRoot, Take, Translate, L1Table;
    EmptyMeansNone(s);
    if s.head.Some? {
      TakeExtends(s);
      hide Inv;
      var s1, f := Take(s), s.head.value;
      AddRootInv(s1, f, root);
      InvKeys(s1);
      AddRootEntries(s1, f, root);
      AddRootFields(s1, f, root);
      AddRootWalks(s1, f, root);
    }
  }

  lemma AddRootWalks(s: State, f: Frame, root: Frame)
    requires Inv(s) && f in s.own && s.own[f] == Held && IsRoot(s, root)
    ensures var ram' := AddRoot(s, f, root).ram;
      && (forall q: Page :: Translate(ram', f, q) == if Kernel(q.l4) then Translate(s.ram, root, q) else None)
      && (forall r: Frame, q: Page :: IsRoot(s, r) ==> Translate(ram', r, q) == Translate(s.ram, r, q))
  {
    hide EntryAt, NodeAt, Inv, AddRoot;
    InvKeys(s);
    AddRootEntries(s, f, root);
    var ram' := AddRoot(s, f, root).ram;
    forall r: Frame, q: Page | IsRoot(s, r) ensures Translate(ram', r, q) == Translate(s.ram, r, q) {
      WalkKept(s, ram', r, q);
    }
    forall q: Page ensures Translate(ram', f, q) == if Kernel(q.l4) then Translate(s.ram, root, q) else None {
      if Kernel(q.l4) {
        WalkKept(s, ram', root, q);
        assert Next(ram', f, q.l4) == Next(ram', root, q.l4);
      }
    }
  }

  // ---------------------------------------------------------------- L4 entries

  /** Among the entries of all roots, at most entry `i` of `root` changed, and only if it led nowhere. */
  ghost predicate RootsKept(s: State, s': State, root: Frame, i: Index)
  {
    forall r: Frame, j: Index :: IsRoot(s, r) ==>
      Next(s'.ram, r, j) == Next(s.ram, r, j) || (r == root && j == i && Next(s.ram, r, j).None?)
  }

  lemma EnsureRoots(s: State, t: Frame, i: Index, fl: Flags)
    requires Inv(s) && t in s.own && Level(s.own[t]) >= 2
    ensures RootsKept(s, EnsureNext(s, t, i, fl).state, t, i)
  {
    hide EntryAt, NodeAt, ListOk, DownOk, UpOk, SetEntry, Take, Link, L1Table;
    var e := EntryAt(s.ram, t, i);
    if e == UNUSED && s.head.Some? {
      TakeExtends(s);
      InvKeys(s);
      LinkEntries(Take(s), t, i, s.head.value, fl);
    } else if e != UNUSED {
      UsedIsPresent(s, t, i);
      InvKeys(s);
      SetEntryEffect(s.ram, t, i, Widened(e, fl));
    }
  }

  lemma {:induction false} DescendRoots(s: State, t: Frame, path: seq<Index>, fl: Flags, root: Frame, i: Index)
    requires Inv(s) && t in s.own && Level(s.own[t]) == |path| + 1
    requires s.own[t].Root? ==> t == root && path != [] && path[0] == i
    ensures RootsKept(s, Descend(s, t, path, fl).state, root, i)
    decreases |path|
  {
    hide EntryAt, NodeAt, Inv, EnsureNext, Next;
    if path != [] {
      EnsureRoots(s, t, path[0], fl);
      EnsureNextSpec(s, t, path[0], fl);
      var o := EnsureNext(s, t, path[0], fl);
      if o.result.Ok? {
        var n := o.result.value;
        LevelBound(s, t);
        DescendRoots(o.state, n, path[1..], fl, root, i);
      }
    }
  }

  lemma MapToRoots(s: State, root: Frame, p: Page, f: Frame, fl: Flags)
    requires Inv(s) && IsRoot(s, root) && f in s.own && (s.own[f] == Held || s.own[f] == Foreign)
    ensures RootsKept(s, MapTo(s, root, p, f, fl).state, root, p.l4)
  {
    hide EntryAt, NodeAt, Inv, Descend, WalkPath, Missing, Obstructed, Translate, L1Table, SetEntry;
    DescendRoots(s, root, PathOf(p), fl, root, p.l4);
    DescendMeets(s, root, PathOf(p), fl);
    var d := Descend(s, root, PathOf(p), fl);
    if d.result.Ok? && EntryAt(d.state.ram, d.result.value, p.l1) == UNUSED {
      InvKeys(d.state);
      SetEntryEffect(d.state.ram, d.result.value, p.l1, LeafEntry(f, fl));
    }
  }

  lemma MapRamRoots(s: State, root: Frame, p: Page, fl: Flags)
    requires Inv(s) && IsRoot(s, root)
    ensures RootsKept(s, MapRam(s, root, p, fl).state, root, p.l4)
  {
    hide EntryAt, NodeAt, Inv, MapTo, Take;
    if s.head.Some? {
      TakeExtends(s);
      MapToRoots(Take(s), root, p, s.head.value, fl);
    }
  }

  /** Editing a leaf leaves every L4 entry alone. */
  lemma LeafRoots(s: State, s': State, root: Frame, p: Page)
    requires Inv(s) && IsRoot(s, root) && L1Table(s.ram, root, p).Some?
    requires forall g: Frame, j: Index :: g != L1Table(s.ram, root, p).value ==>
      EntryAt(s'.ram, g, j) == EntryAt(s.ram, g, j)
    ensures forall r: Frame, j: Index :: IsRoot(s, r) ==> Next(s'.ram, r, j) == Next(s.ram, r, j)
  {
    hide EntryAt, Inv;
    WalkOwner(s, root, p);
  }

  lemma ChangeFlagsRoots(s: State, root: Frame, p: Page, fl: Flags)
    requires Inv(s) && IsRoot(s, root)
    ensures forall r: Frame, j: Index :: IsRoot(s, r) ==>
      Next(ChangeFlags(s, root, p, fl).state.ram, r, j) == Next(s.ram, r, j)
  {
    hide EntryAt, Inv, SetEntry, Next, L1Table;
    var t := L1Table(s.ram, root, p);
    if t.Some? && EntryAt(s.ram, t.value, p.l1) != UNUSED {
      WalkOwner(s, root, p);
      InvKeys(s);
      SetEntryEffect(s.ram, t.value, p.l1, LeafEntry(EntryAt(s.ram, t.value, p.l1).frame, fl));
      LeafRoots(s, Reflag(s, t.value, p.l1, fl), root, p);
    }
  }

  lemma UnmapRoots(s: State, root: Frame, p: Page)
    requires Inv(s) && IsRoot(s, root)
    ensures forall r: Frame, j: Index :: IsRoot(s, r) ==> Next(Unmap(s, root, p).state.ram, r, j) == Next(s.ram, r, j)
  {
    hide EntryAt, Inv, SetEntry, Next, L1Table;
    if Translate(s.ram, root, p).Some? {
      var t := L1Table(s.ram, root, p).value;
      WalkOwner(s, root, p);
      InvKeys(s);
      SetEntryEffect(s.ram, t, p.l1, UNUSED);
      LeafRoots(s, ClearLeaf(s, t, p.l1), root, p);
    }
  }

  lemma UnmapRamRoots(s: State, root: Frame, p: Page)
    requires Inv(s) && IsRoot(s, root)
    requires Translate(s.ram, root, p).Some? ==> Translate(s.ram, root, p).value.frame in s.pool
    ensures forall r: Frame, j: Index :: IsRoot(s, r) ==>
      Next(UnmapRam(s, root, p).state.ram, r, j) == Next(s.ram, r, j)
  {
    hide EntryAt, Inv, SetEntry, Next, L1Table, Translate, Unmap, SetNode;
    UnmapRoots(s, root, p);
    UnmapMeets(s, root, p);
    var u := Unmap(s, root, p);
    if u.result.Ok? {
      GiveWalks(u.state, u.result.value);
    }
  }

  // --------------------------------------------- the user half of a table this kernel made

  /** Below a table in a managed frame no huge page obstructs a walk, and it ends in a managed L1 table. */
  lemma {:induction false} CleanWalk(s: State, t: Frame, path: seq<Index>)
    requires Inv(s) && t in s.own && t in s.pool && Level(s.own[t]) == |path| + 1
    requires s.own[t].Root? && path != [] ==> !Kernel(path[0])
    ensures !Obstructed(s.ram, t, path)
    ensures var n := WalkPath(s.ram, t, path);
      n.Some? ==> n.value in s.own && n.value in s.pool && Level(s.own[n.value]) == 1
    decreases |path|
  {
    hide EntryAt, Inv;
    if path != [] && EntryAt(s.ram, t, path[0]) != UNUSED {
      CleanStep(s, t, path[0]);
      CleanWalk(s, EntryAt(s.ram, t, path[0]).frame, path[1..]);
    }
  }

  lemma CleanStep(s: State, t: Frame, i: Index)
    requires Inv(s) && t in s.own && t in s.pool && Level(s.own[t]) >= 2 && !(s.own[t].Root? && Kernel(i))
    requires EntryAt(s.ram, t, i) != UNUSED
    ensures var e := EntryAt(s.ram, t, i);
      && e.present && !e.huge && !e.noExec && e.frame in s.own && e.frame in s.pool
      && Level(s.own[e.frame]) == Level(s.own[t]) - 1 && !s.own[e.frame].Root?
  {
    hide EntryAt, ListOk, UpOk;
    var e := EntryAt(s.ram, t, i);
    assert LinkOk(s, t, i, e);
    assert UpOk1(s, e.frame) && UpOk1(s, t) by { LevelsOk(s, t); LevelsOk(s, e.frame); }
  }

  lemma LevelsOk(s: State, f: Frame)
    requires UpOk(s) && f in s.own
    ensures UpOk1(s, f)
  {
  }

  /**
    Under a table that `create_new_l4_page_table` made, mapping a user page can
    fail in two ways only: the page is mapped already, or there is too little
    memory for the frame and the missing tables.
   */
  lemma MapUserExact(s: State, root: Frame, p: Page, fl: Flags)
    requires Inv(s) && IsRoot(s, root) && root in s.pool && p.l4 == 0
    ensures var o := MapRamUser(s, root, p, fl);
      var cost := 1 + Missing(s.ram, root, PathOf(p));
      && (o.result.Ok? <==> Translate(s.ram, root, p).None? && s.free >= cost)
      && (o.result.Err? ==> o.result.error == if s.free < cost then OutOfMemory else AlreadyMapped)
  {
    hide EntryAt, Inv, MapRam, WalkPath, Missing, Obstructed, PathOf;
    MapRamMeets(s, root, p, fl.(user := true));
    assert |PathOf(p)| == 3 && PathOf(p)[0] == p.l4 by { PathLength(p); }
    CleanWalk(s, root, PathOf(p));
    L1TableIsWalk(s.ram, root, p);
    var t := L1Table(s.ram, root, p);
    if t.Some? {
      CleanLeaf(s, t.value, p.l1);
    }
  }

  lemma CleanLeaf(s: State, t: Frame, i: Index)
    requires Inv(s) && t in s.own && t in s.pool && Level(s.own[t]) == 1
    ensures EntryAt(s.ram, t, i) != UNUSED ==> EntryAt(s.ram, t, i).present
  {
    hide EntryAt;
  }
}
