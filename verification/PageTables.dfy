/**
  The state behind `MEMORY`: physical memory, the free list threaded through
  it, and a forest of four-level page tables whose kernel branches (L4 slots
  100 to 115) are shared between the roots.

  `own`, `list` and `pool` are auxiliary variables: every operation updates
  them, none reads them.  They name, for each frame, its one current use, and
  the invariant `Inv` says that the bytes in memory agree.
 */
module PageTables {
  import opened Words
  import opened PhysicalMemory

  /** The use of a frame. */
  datatype Owner =
    | FreeFrame                                            // on the free list
    | Held                                                 // handed out, not mapped
    | Root                                                 // an L4 table
    | Shared(slot: Index, root: Frame)                     // L3 table below a kernel slot
    | Child(level: nat, parent: Frame, index: Index)       // table of level 3, 2, 1; data at level 0
    | Foreign                                              // never managed: device memory, boot data

  datatype State = State(
    ram: Ram, head: Option<Frame>, free: nat, total: nat, kernelRoot: Frame,
    own: map<Frame, Owner>, list: seq<Frame>, pool: set<Frame>)

  datatype Flags = Flags(writable: bool, user: bool, noExec: bool)

  datatype Page = Page(l4: Index, l3: Index, l2: Index, l1: Index)

  /** WRITABLE | NO_EXECUTE: stacks and heaps. */
  const DATA_FLAGS: Flags := Flags(true, false, true)

  datatype Leaf = Leaf(frame: Frame, flags: Flags)

  /** `KERNEL_L4_PAGE_TABLE_RANGE`. */
  const KERNEL_SLOTS: nat := 16

  predicate Kernel(i: Index) { 100 <= i < 116 }

  function Level(o: Owner): (l: nat)
  {
    match o
    case Root => 4
    case Shared(_, _) => 3
    case Child(l, _, _) => l
    case _ => 0
  }

  /** The use of the table that entry `i` of the table `p` links. */
  function BelowOwner(o: Owner, p: Frame, i: Index): (c: Owner)
  {
    if o.Root? && Kernel(i) then Shared(i, p) else Child(if Level(o) == 0 then 0 else Level(o) - 1, p, i)
  }

  // ------------------------------------------------------------------ invariant

  predicate NoDup<T(==)>(s: seq<T>)
  {
    forall j, k :: 0 <= j < k < |s| ==> s[j] != s[k]
  }

  /** A list without repetitions has as many members as entries. */
  lemma {:induction false} DistinctSize(l: seq<Frame>, f: set<Frame>)
    requires NoDup(l) && forall x: Frame :: x in f <==> x in l
    ensures |f| == |l|
    decreases |l|
  {
    if l == [] {
      assert f == {};
    } else {
      var last := l[|l| - 1];
      var rest := l[..|l| - 1];
      forall x: Frame ensures x in f - {last} <==> x in rest {
        assert x in l <==> x in rest || x == last;
      }
      DistinctSize(rest, f - {last});
    }
  }

  function NextOf(list: seq<Frame>, k: nat): (n: Option<Frame>)
  {
    if k < |list| then Some(list[k]) else None
  }

  /** The nodes stored in the free frames form the chain `list`, starting at `head`. */
  ghost predicate ListOk(s: State)
  {
    && s.head == NextOf(s.list, 0)
    && s.free == |s.list|
    && NoDup(s.list)
    && (forall k :: 0 <= k < |s.list| ==> s.list[k] in s.own && s.own[s.list[k]] == FreeFrame && s.list[k] in s.ram)
    && (forall k {:trigger NodeAt(s.ram, s.list[k])} :: 0 <= k < |s.list| ==>
          NodeAt(s.ram, s.list[k]) == Node(NextOf(s.list, k + 1), s.list[k]))
    && (forall f: Frame :: f in s.own && s.own[f] == FreeFrame ==> f in s.list)
  }

  /** What an entry in a table says about the frame it names. */
  predicate LinkOk(s: State, f: Frame, i: Index, e: Entry)
    requires f in s.own
  {
    var o := s.own[f];
    && (Level(o) >= 2 ==> e.present)
    && (|| (Level(o) >= 2 && e.huge)
        || (&& e.frame in s.own
            && var c := s.own[e.frame];
               if o.Root? && Kernel(i) then c.Shared? && c.slot == i
               else c == BelowOwner(o, f, i) || (Level(o) == 1 && c.Foreign?)))
  }

  ghost predicate DownOk(s: State)
  {
    forall f: Frame, i: Index :: f in s.own && Level(s.own[f]) >= 1 && EntryAt(s.ram, f, i) != UNUSED ==>
      LinkOk(s, f, i, EntryAt(s.ram, f, i))
  }

  /** Every table below a root, and every mapped frame, is named by the entry its owner records. */
  predicate UpOk1(s: State, f: Frame)
    requires f in s.own
  {
    match s.own[f]
    case Child(l, p, i) =>
      l <= 3 && p in s.own && Level(s.own[p]) == l + 1 && !(s.own[p].Root? && Kernel(i))
      && EntryAt(s.ram, p, i) != UNUSED && EntryAt(s.ram, p, i).frame == f && (l >= 1 ==> !EntryAt(s.ram, p, i).huge)
    case Shared(i, r) =>
      Kernel(i) && r in s.own && s.own[r].Root?
      && EntryAt(s.ram, r, i) != UNUSED && EntryAt(s.ram, r, i).frame == f && !EntryAt(s.ram, r, i).huge
    case _ => true
  }

  ghost predicate UpOk(s: State)
  {
    forall f: Frame :: f in s.own ==> UpOk1(s, f)
  }

  predicate Managed(o: Owner) { o.FreeFrame? || o.Held? || (o.Child? && o.level == 0) }

  ghost predicate PoolOk(s: State)
  {
    && s.ram.Keys == s.own.Keys
    && s.pool <= s.own.Keys
    && s.total == |s.pool|
    && 0 !in s.pool
    && (forall f: Frame :: f in s.own && Managed(s.own[f]) ==> f in s.pool)
    && (forall f: Frame :: f in s.own && s.own[f].Foreign? ==> f !in s.pool)
    && s.kernelRoot in s.own && s.own[s.kernelRoot] == Root
  }

  /**
    An entry as this kernel writes it: present, no huge page, none of the bits
    that it does not interpret, and above L1 never a bar to execution, nor a
    table that it did not allocate.
   */
  predicate CleanEntry(s: State, level: nat, e: Entry)
  {
    && e.present && !e.huge && e.low == 0 && e.mid == 0 && e.high == 0
    && (level >= 2 ==> !e.noExec && e.frame in s.pool)
  }

  /** Tables in managed frames hold such entries only, but for the kernel slots that a root copies. */
  ghost predicate CleanOk(s: State)
  {
    forall t: Frame, i: Index ::
      t in s.own && t in s.pool && Level(s.own[t]) >= 1 && !(s.own[t].Root? && Kernel(i)) &&
        EntryAt(s.ram, t, i) != UNUSED ==>
        CleanEntry(s, Level(s.own[t]), EntryAt(s.ram, t, i))
  }

  ghost predicate Inv(s: State)
  {
    PoolOk(s) && ListOk(s) && DownOk(s) && UpOk(s) && CleanOk(s)
  }

  predicate IsRoot(s: State, r: Frame) { r in s.own && s.own[r].Root? }

  // ---------------------------------------------------------------- translation

  /** `next_table`: the table an entry leads to, unless it is absent or maps a huge page. */
  function Next(ram: Ram, t: Frame, i: Index): (n: Option<Frame>)
  {
    var e := EntryAt(ram, t, i);
    if e.present && !e.huge then Some(e.frame) else None
  }

  function L1Table(ram: Ram, root: Frame, p: Page): (t: Option<Frame>)
  {
    var t3 := Next(ram, root, p.l4);
    if t3.None? then None else
    var t2 := Next(ram, t3.value, p.l3);
    if t2.None? then None else
    Next(ram, t2.value, p.l2)
  }

  function FlagsOf(e: Entry): (f: Flags) { Flags(e.writable, e.user, e.noExec) }

  /** The 4 KiB translation of page `p` under the table `root`. */
  function Translate(ram: Ram, root: Frame, p: Page): (l: Option<Leaf>)
  {
    var t := L1Table(ram, root, p);
    if t.None? then None else
    var e := EntryAt(ram, t.value, p.l1);
    if e.present then Some(Leaf(e.frame, FlagsOf(e))) else None
  }

  // ----------------------------------------------------------- elementary steps

  function OwnerOf(s: State, f: Frame): (o: Owner) { if f in s.own then s.own[f] else Foreign }

  /** `allocate_frame` on a non-empty list. */
  function Take(s: State): (s': State)
  {
    if s.head.None? then s else
    var f := s.head.value;
    s.(head := NodeAt(s.ram, f).next, free := if s.free == 0 then 0 else s.free - 1,
       own := s.own[f := Held], list := if s.list == [] then [] else s.list[1..])
  }

  /** `deallocate_frame`. */
  function Give(s: State, f: Frame): (s': State)
  {
    s.(ram := SetNode(s.ram, f, Node(s.head, f)), head := Some(f), free := s.free + 1,
       own := s.own[f := FreeFrame], list := [f] + s.list)
  }

  function LinkEntry(f: Frame, fl: Flags): (e: Entry)
  {
    Entry(f, true, fl.writable, fl.user, false, false, 0, 0, 0)
  }

  /** A fresh table in the held frame `f`, zeroed and linked from entry `i` of table `p`. */
  function Link(s: State, p: Frame, i: Index, f: Frame, fl: Flags): (s': State)
  {
    s.(ram := SetEntry(s.ram[f := ZeroPage()], p, i, LinkEntry(f, fl)),
       own := s.own[f := BelowOwner(OwnerOf(s, p), p, i)])
  }

  function Widened(e: Entry, fl: Flags): (e': Entry)
  {
    e.(present := true, writable := e.writable || fl.writable, user := e.user || fl.user)
  }

  /** The flags of an existing parent entry only grow. */
  function Widen(s: State, p: Frame, i: Index, fl: Flags): (s': State)
  {
    s.(ram := SetEntry(s.ram, p, i, Widened(EntryAt(s.ram, p, i), fl)))
  }

  function LeafEntry(f: Frame, fl: Flags): (e: Entry)
  {
    Entry(f, true, fl.writable, fl.user, false, fl.noExec, 0, 0, 0)
  }

  /** Entry `i` of the L1 table `p` now maps frame `f`; a managed frame gets its owner. */
  function SetLeaf(s: State, p: Frame, i: Index, f: Frame, fl: Flags): (s': State)
  {
    s.(ram := SetEntry(s.ram, p, i, LeafEntry(f, fl)),
       own := if OwnerOf(s, f).Foreign? then s.own else s.own[f := Child(0, p, i)])
  }

  /** Entry `i` of the L1 table `p` is cleared; a managed frame goes back to the caller. */
  function ClearLeaf(s: State, p: Frame, i: Index): (s': State)
  {
    var f := EntryAt(s.ram, p, i).frame;
    s.(ram := SetEntry(s.ram, p, i, UNUSED),
       own := if OwnerOf(s, f).Foreign? then s.own else s.own[f := Held])
  }

  /** One byte stored through a mapping, or through the direct map by a frame's holder. */
  function Poke(s: State, f: Frame, off: nat, b: Byte): (s': State)
  {
    if f !in s.ram || off >= 4096 then s else s.(ram := s.ram[f := s.ram[f][off := b]])
  }

  // -------------------------------------------------- each step keeps the invariant

  predicate Idle(o: Owner) { o.FreeFrame? || o.Held? }

  /** Entries that did not change are as clean as before. */
  lemma CleanKept(s: State, s': State)
    requires CleanOk(s) && s'.pool == s.pool
    requires forall t: Frame, i: Index ::
      t in s'.own && t in s.pool && Level(s'.own[t]) >= 1 && !(s'.own[t].Root? && Kernel(i)) &&
        EntryAt(s'.ram, t, i) != UNUSED ==>
        CleanEntry(s', Level(s'.own[t]), EntryAt(s'.ram, t, i))
        || (t in s.own && s.own[t] == s'.own[t] && EntryAt(s.ram, t, i) == EntryAt(s'.ram, t, i))
    ensures CleanOk(s')
  {
    hide EntryAt;
  }

  /** The trees do not notice what happens to frames that are not part of them. */
  lemma TreesKept(s: State, s': State)
    requires DownOk(s) && UpOk(s)
    requires s'.own.Keys == s.own.Keys
    requires forall g: Frame :: g in s.own ==> s'.own[g] == s.own[g] || (Idle(s.own[g]) && Idle(s'.own[g]))
    requires forall g: Frame, j: Index :: g in s.own && Level(s.own[g]) >= 1 ==>
      EntryAt(s'.ram, g, j) == EntryAt(s.ram, g, j)
    ensures DownOk(s') && UpOk(s')
  {
    hide EntryAt;
    forall f: Frame, i: Index | f in s'.own && Level(s'.own[f]) >= 1 && EntryAt(s'.ram, f, i) != UNUSED
      ensures LinkOk(s', f, i, EntryAt(s'.ram, f, i))
    {
      assert LinkOk(s, f, i, EntryAt(s.ram, f, i));
    }
    forall f: Frame | f in s'.own ensures UpOk1(s', f) {
      assert UpOk1(s, f);
    }
  }

  lemma TakeInv(s: State)
    requires Inv(s) && s.head.Some?
    ensures s.list != [] && s.head.value == s.list[0] && s.head.value in s.own && s.own[s.head.value] == FreeFrame
    ensures NodeAt(s.ram, s.head.value).frame == s.head.value
    ensures Inv(Take(s))
  {
    hide EntryAt, NodeAt;
    var s' := Take(s);
    assert s.list[0] == s.head.value;
    TakeList(s);
    TreesKept(s, s');
    CleanKept(s, s');
  }

  lemma NextOfTail(list: seq<Frame>)
    requires list != []
    ensures forall k: nat :: NextOf(list[1..], k) == NextOf(list, k + 1)
  {
  }

  lemma TakeList(s: State)
    requires ListOk(s) && s.ram.Keys == s.own.Keys && s.head.Some?
    ensures ListOk(Take(s))
  {
    hide EntryAt, NodeAt;
    var f := s.head.value;
    assert s.list != [] && s.list[0] == f;
    hide NextOf;
    NextOfTail(s.list);
    var s' := Take(s);
    assert s'.list == s.list[1..] && s'.head == NextOf(s'.list, 0);
    assert NoDup(s'.list);
    forall k | 0 <= k < |s'.list|
      ensures s'.list[k] in s'.own && s'.own[s'.list[k]] == FreeFrame && s'.list[k] in s'.ram
      ensures NodeAt(s'.ram, s'.list[k]) == Node(NextOf(s'.list, k + 1), s'.list[k])
    {
      assert s'.list[k] == s.list[k + 1] && s.list[k + 1] != s.list[0];
    }
    forall g: Frame | g in s'.own && s'.own[g] == FreeFrame ensures g in s'.list {
      assert g in s.list && g != f;
    }
  }

  lemma GiveInv(s: State, f: Frame)
    requires Inv(s) && f in s.own && s.own[f] == Held
    ensures Inv(Give(s, f))
  {
    hide EntryAt, NodeAt, SetNode, ListOk, CleanOk;
    var s' := Give(s, f);
    SetNodeEffect(s.ram, f, Node(s.head, f));
    SetNodeFrame(s.ram, f, Node(s.head, f));
    AllUntouchedBut(s.ram, s'.ram, {f});
    GiveList(s, f);
    TreesKept(s, s');
    CleanKept(s, s');
  }

  lemma SetNodeFrame(ram: Ram, f: Frame, n: FreeNode)
    requires f in ram
    ensures SetNode(ram, f, n).Keys == ram.Keys
    ensures forall g: Frame :: g in ram && g != f ==> SetNode(ram, f, n)[g] == ram[g]
  {
  }

  lemma GiveList(s: State, f: Frame)
    requires ListOk(s) && s.ram.Keys == s.own.Keys && f in s.own && s.own[f] == Held
    ensures ListOk(Give(s, f))
  {
    hide EntryAt, NodeAt, SetNode;
    var s' := Give(s, f);
    SetNodeFrame(s.ram, f, Node(s.head, f));
    assert s'.head == NextOf(s'.list, 0);
    hide NextOf;
    assert f !in s.list;
    forall k | 0 <= k < |s'.list| ensures s'.list[k] in s'.own && s'.own[s'.list[k]] == FreeFrame &&
      s'.list[k] in s'.ram {
      assert s'.list[k] == if k == 0 then f else s.list[k - 1];
    }
    forall k | 0 <= k < |s'.list| ensures NodeAt(s'.ram, s'.list[k]) == Node(NextOf(s'.list, k + 1), s'.list[k]) {
      GiveNode(s, f, k);
    }
  }

  lemma GiveNode(s: State, f: Frame, k: nat)
    requires ListOk(s) && s.ram.Keys == s.own.Keys && f in s.own && s.own[f] == Held && k <= |s.list|
    ensures var s' := Give(s, f);
      s'.list[k] in s'.ram && NodeAt(s'.ram, s'.list[k]) == Node(NextOf(s'.list, k + 1), s'.list[k])
  {
    hide EntryAt, NodeAt, SetNode;
    var s' := Give(s, f);
    if k == 0 {
      SetNodeEffect(s.ram, f, Node(s.head, f));
    } else {
      SetNodeFrame(s.ram, f, Node(s.head, f));
      Untouched(s.ram, s'.ram, s.list[k - 1]);
      assert s'.list[k] == s.list[k - 1];
    }
  }

  /** Storing a byte in a frame that is neither a table nor free. */
  lemma PokeInv(s: State, f: Frame, off: nat, b: Byte)
    requires Inv(s) && f in s.own && Level(s.own[f]) == 0 && !s.own[f].FreeFrame? && off < 4096
    ensures Inv(Poke(s, f, off, b))
  {
    hide EntryAt, NodeAt, ListOk, CleanOk;
    var s' := Poke(s, f, off, b);
    AllUntouchedBut(s.ram, s'.ram, {f});
    ListKept(s, s');
    TreesKept(s, s');
    CleanKept(s, s');
  }

  lemma ListKept(s: State, s': State)
    requires ListOk(s) && s.ram.Keys == s.own.Keys
    requires s'.own.Keys == s.own.Keys && s'.ram.Keys == s.ram.Keys
    requires s'.list == s.list && s'.head == s.head && s'.free == s.free
    requires forall g: Frame :: g in s.own ==> (s'.own[g] == FreeFrame <==> s.own[g] == FreeFrame)
    requires forall g: Frame :: g in s.own && s.own[g] == FreeFrame ==> s'.ram[g] == s.ram[g]
    ensures ListOk(s')
  {
    hide EntryAt, NodeAt, NextOf;
    forall k | 0 <= k < |s'.list| ensures NodeAt(s'.ram, s'.list[k]) == Node(NextOf(s'.list, k + 1), s'.list[k]) {
      Untouched(s.ram, s'.ram, s.list[k]);
    }
  }

  lemma SetEntryFrame(ram: Ram, f: Frame, i: Index, e: Entry)
    requires f in ram
    ensures SetEntry(ram, f, i, e).Keys == ram.Keys
    ensures forall g: Frame :: g in ram && g != f ==> SetEntry(ram, f, i, e)[g] == ram[g]
  {
  }

  /** What linking a zeroed table does to the bytes, seen as entries. */
  lemma LinkEntries(s: State, p: Frame, i: Index, f: Frame, fl: Flags)
    requires s.ram.Keys == s.own.Keys && f in s.own && p in s.own && f != p && Level(s.own[p]) >= 1
    ensures var s' := Link(s, p, i, f, fl);
      && s'.ram.Keys == s.ram.Keys
      && (forall g: Frame :: g in s.ram && g != f && g != p ==> s'.ram[g] == s.ram[g])
      && (forall g: Frame, j: Index :: EntryAt(s'.ram, g, j) ==
            if g == p && j == i then LinkEntry(f, fl) else if g == f then UNUSED else EntryAt(s.ram, g, j))
  {
    hide EntryAt, SetEntry;
    var zeroed := s.ram[f := ZeroPage()];
    ZeroPageEffect(s.ram, f);
    SetEntryEffect(zeroed, p, i, LinkEntry(f, fl));
    SetEntryFrame(zeroed, p, i, LinkEntry(f, fl));
  }

  /**
    One entry, `(p, i)`, is rewritten and one frame, `f`, may change its use:
    the links that remain are still recorded.
   */
  lemma EditDown(s: State, s': State, p: Frame, i: Index, f: Frame)
    requires DownOk(s) && p in s.own && f in s.own && f in s'.own && s'.own == s.own[f := s'.own[f]]
    requires s'.own[f] == s.own[f] || Idle(s.own[f]) || s.own[f] == Child(0, p, i)
    requires forall g: Frame, j: Index :: g in s.own && (g != p || j != i) && Level(s'.own[g]) >= 1 ==>
      EntryAt(s'.ram, g, j) == UNUSED || (Level(s.own[g]) >= 1 && EntryAt(s'.ram, g, j) == EntryAt(s.ram, g, j))
    requires EntryAt(s'.ram, p, i) != UNUSED ==> LinkOk(s', p, i, EntryAt(s'.ram, p, i))
    ensures DownOk(s')
  {
    hide EntryAt;
    forall g: Frame, j: Index | g in s'.own && Level(s'.own[g]) >= 1 && EntryAt(s'.ram, g, j) != UNUSED
      ensures LinkOk(s', g, j, EntryAt(s'.ram, g, j))
    {
      if g != p || j != i {
        assert LinkOk(s, g, j, EntryAt(s.ram, g, j));
      }
    }
  }

  lemma EditUp(s: State, s': State, p: Frame, i: Index, f: Frame)
    requires UpOk(s) && p in s.own && f in s.own && f in s'.own && s'.own == s.own[f := s'.own[f]] && UpOk1(s', f)
    requires s'.own[f] == s.own[f] || Level(s.own[f]) == 0
    requires forall g: Frame, j: Index :: g in s.own && (g != p || j != i) && Level(s.own[g]) >= 1 ==>
      EntryAt(s'.ram, g, j) == EntryAt(s.ram, g, j)
    requires var e := EntryAt(s.ram, p, i); var e' := EntryAt(s'.ram, p, i);
      e == UNUSED || e.frame == f ||
        (e' != UNUSED && e'.frame == e.frame && (e'.huge == e.huge || Level(s.own[p]) == 1))
    ensures UpOk(s')
  {
    hide EntryAt;
    forall g: Frame | g in s'.own ensures UpOk1(s', g) {
      assert UpOk1(s, g);
    }
  }

  lemma LinkInv(s: State, p: Frame, i: Index, f: Frame, fl: Flags)
    requires Inv(s) && p in s.own && Level(s.own[p]) >= 2 && EntryAt(s.ram, p, i) == UNUSED
    requires f in s.own && s.own[f] == Held
    ensures Inv(Link(s, p, i, f, fl))
  {
    hide EntryAt, NodeAt, SetEntry, ListOk, DownOk, CleanOk;
    assert UpOk1(s, p);
    hide UpOk;
    var s' := Link(s, p, i, f, fl);
    LinkEntries(s, p, i, f, fl);
    ListKept(s, s');
    EditDown(s, s', p, i, f);
    EditUp(s, s', p, i, f);
    CleanKept(s, s');
  }

  lemma WidenClean(s: State, p: Frame, i: Index, fl: Flags)
    requires CleanOk(s) && p in s.own && p in s.ram && Level(s.own[p]) >= 2 && EntryAt(s.ram, p, i) != UNUSED
    ensures CleanOk(Widen(s, p, i, fl))
  {
    hide EntryAt, SetEntry;
    var e := EntryAt(s.ram, p, i);
    assert p in s.pool && !(s.own[p].Root? && Kernel(i)) ==> CleanEntry(s, Level(s.own[p]), e);
    hide CleanOk;
    SetEntryEffect(s.ram, p, i, Widened(e, fl));
    CleanKept(s, Widen(s, p, i, fl));
  }

  lemma WidenInv(s: State, p: Frame, i: Index, fl: Flags)
    requires Inv(s) && p in s.own && Level(s.own[p]) >= 2 && EntryAt(s.ram, p, i) != UNUSED
    ensures Inv(Widen(s, p, i, fl))
  {
    hide EntryAt, NodeAt, SetEntry, ListOk, CleanOk;
    var e := EntryAt(s.ram, p, i);
    assert UpOk1(s, p);
    hide UpOk;
    var s' := Widen(s, p, i, fl);
    SetEntryEffect(s.ram, p, i, Widened(e, fl));
    SetEntryFrame(s.ram, p, i, Widened(e, fl));
    ListKept(s, s');
    assert LinkOk(s, p, i, e);
    hide DownOk;
    EditDown(s, s', p, i, p);
    EditUp(s, s', p, i, p);
    WidenClean(s, p, i, fl);
  }

  /** Mapping a held or foreign frame at an unused leaf. */
  lemma SetLeafInv(s: State, p: Frame, i: Index, f: Frame, fl: Flags)
    requires Inv(s) && p in s.own && Level(s.own[p]) == 1 && EntryAt(s.ram, p, i) == UNUSED
    requires f in s.own && (s.own[f] == Held || s.own[f] == Foreign)
    ensures Inv(SetLeaf(s, p, i, f, fl))
  {
    hide EntryAt, NodeAt, SetEntry, ListOk, DownOk, UpOk, CleanOk;
    var s' := SetLeaf(s, p, i, f, fl);
    SetEntryEffect(s.ram, p, i, LeafEntry(f, fl));
    SetEntryFrame(s.ram, p, i, LeafEntry(f, fl));
    ListKept(s, s');
    EditDown(s, s', p, i, f);
    EditUp(s, s', p, i, f);
    CleanKept(s, s');
  }

  /** `update_flags` on a leaf that is in use. */
  function Reflag(s: State, p: Frame, i: Index, fl: Flags): (s': State)
  {
    s.(ram := SetEntry(s.ram, p, i, LeafEntry(EntryAt(s.ram, p, i).frame, fl)))
  }

  lemma ReflagInv(s: State, p: Frame, i: Index, fl: Flags)
    requires Inv(s) && p in s.own && Level(s.own[p]) == 1 && EntryAt(s.ram, p, i) != UNUSED
    ensures Inv(Reflag(s, p, i, fl))
  {
    hide EntryAt, NodeAt, SetEntry, ListOk, CleanOk;
    assert UpOk1(s, p);
    hide UpOk;
    var s' := Reflag(s, p, i, fl);
    var e := EntryAt(s.ram, p, i);
    SetEntryEffect(s.ram, p, i, LeafEntry(e.frame, fl));
    SetEntryFrame(s.ram, p, i, LeafEntry(e.frame, fl));
    ListKept(s, s');
    assert LinkOk(s, p, i, e);
    hide DownOk;
    EditDown(s, s', p, i, p);
    EditUp(s, s', p, i, p);
    CleanKept(s, s');
  }

  lemma ClearLeafInv(s: State, p: Frame, i: Index)
    requires Inv(s) && p in s.own && Level(s.own[p]) == 1 && EntryAt(s.ram, p, i) != UNUSED
    ensures EntryAt(s.ram, p, i).frame in s.own
    ensures Inv(ClearLeaf(s, p, i))
  {
    hide EntryAt, NodeAt, SetEntry, ListOk, UpOk, CleanOk;
    assert LinkOk(s, p, i, EntryAt(s.ram, p, i));
    hide DownOk;
    var s' := ClearLeaf(s, p, i);
    var f := EntryAt(s.ram, p, i).frame;
    SetEntryEffect(s.ram, p, i, UNUSED);
    SetEntryFrame(s.ram, p, i, UNUSED);
    ListKept(s, s');
    EditDown(s, s', p, i, f);
    EditUp(s, s', p, i, f);
    CleanKept(s, s');
  }

  // ------------------------------------------------------------------ new roots

  /** The first `n` kernel slots of the table `from`, copied entry by entry into `to`. */
  function CopySlots(ram: Ram, from: Frame, to: Frame, n: nat): (r: Ram)
    requires n <= KERNEL_SLOTS
    ensures r.Keys == ram.Keys
  {
    if n == 0 then ram
    else
      var before := CopySlots(ram, from, to, n - 1);
      SetEntry(before, to, 99 + n, EntryAt(before, from, 99 + n))
  }

  lemma {:induction false} CopySlotsEffect(ram: Ram, from: Frame, to: Frame, n: nat)
    requires to in ram && from != to && n <= KERNEL_SLOTS
    ensures var r := CopySlots(ram, from, to, n);
      && (forall g: Frame :: g in ram && g != to ==> r[g] == ram[g])
      && (forall g: Frame, j: Index :: EntryAt(r, g, j) ==
            if g == to && 100 <= j < 100 + n then EntryAt(ram, from, j) else EntryAt(ram, g, j))
  {
    hide EntryAt, SetEntry;
    if n > 0 {
      CopySlotsEffect(ram, from, to, n - 1);
      var before := CopySlots(ram, from, to, n - 1);
      SetEntryEffect(before, to, 99 + n, EntryAt(before, from, 99 + n));
      SetEntryFrame(before, to, 99 + n, EntryAt(before, from, 99 + n));
    }
  }

  /** `create_new_l4_page_table` in the frame `f`: zeroed, then the kernel slots of `from`. */
  function AddRoot(s: State, f: Frame, from: Frame): (s': State)
  {
    s.(ram := CopySlots(s.ram[f := ZeroPage()], from, f, KERNEL_SLOTS), own := s.own[f := Root])
  }

  lemma AddRootEntries(s: State, f: Frame, from: Frame)
    requires f in s.ram && from != f
    ensures var s' := AddRoot(s, f, from);
      && s'.ram.Keys == s.ram.Keys
      && (forall g: Frame :: g in s.ram && g != f ==> s'.ram[g] == s.ram[g])
      && (forall g: Frame, j: Index :: EntryAt(s'.ram, g, j) ==
            if g != f then EntryAt(s.ram, g, j) else if Kernel(j) then EntryAt(s.ram, from, j) else UNUSED)
  {
    hide EntryAt, CopySlots;
    var zeroed := s.ram[f := ZeroPage()];
    ZeroPageEffect(s.ram, f);
    CopySlotsEffect(zeroed, from, f, KERNEL_SLOTS);
    var r := CopySlots(zeroed, from, f, KERNEL_SLOTS);
    forall g: Frame, j: Index
      ensures EntryAt(r, g, j) == if g != f then EntryAt(s.ram, g, j)
        else if Kernel(j) then EntryAt(s.ram, from, j) else UNUSED
    {
      assert EntryAt(zeroed, from, j) == EntryAt(s.ram, from, j);
      var e := EntryAt(s.ram, g, j);
      assert EntryAt(s.ram[f := ZeroPage()], g, j) == if g == f then UNUSED else e;
    }
  }

  lemma AddRootInv(s: State, f: Frame, from: Frame)
    requires Inv(s) && f in s.own && s.own[f] == Held && IsRoot(s, from)
    ensures Inv(AddRoot(s, f, from))
  {
    hide EntryAt, NodeAt, ListOk, DownOk, UpOk, CleanOk;
    var s' := AddRoot(s, f, from);
    AddRootEntries(s, f, from);
    hide AddRoot, CopySlots;
    assert s' == s.(ram := s'.ram, own := s.own[f := Root]) by { AddRootFields(s, f, from); }
    ListKept(s, s');
    AddRootDown(s, s', f, from);
    AddRootUp(s, s', f, from);
    CleanKept(s, s');
  }

  lemma AddRootUp(s: State, s': State, f: Frame, from: Frame)
    requires UpOk(s) && f in s.own && s.own[f] == Held && s'.own == s.own[f := Root]
    requires forall g: Frame, j: Index :: g != f ==> EntryAt(s'.ram, g, j) == EntryAt(s.ram, g, j)
    ensures UpOk(s')
  {
    hide EntryAt;
    forall g: Frame | g in s'.own ensures UpOk1(s', g) {
      assert UpOk1(s, g);
    }
  }

  lemma AddRootFields(s: State, f: Frame, from: Frame)
    requires f in s.ram
    ensures AddRoot(s, f, from) == s.(ram := AddRoot(s, f, from).ram, own := s.own[f := Root])
  {
    hide CopySlots;
  }

  lemma AddRootDown(s: State, s': State, f: Frame, from: Frame)
    requires DownOk(s) && f in s.own && s.own[f] == Held && IsRoot(s, from) && s'.own == s.own[f := Root]
    requires forall g: Frame, j: Index ::
      EntryAt(s'.ram, g, j) == if g != f then EntryAt(s.ram, g, j) else if Kernel(j) then EntryAt(s.ram, from, j)
        else UNUSED
    ensures DownOk(s')
  {
    hide EntryAt;
    forall g: Frame, j: Index | g in s'.own && Level(s'.own[g]) >= 1 && EntryAt(s'.ram, g, j) != UNUSED
      ensures LinkOk(s', g, j, EntryAt(s'.ram, g, j))
    {
      var h := if g == f then from else g;
      assert LinkOk(s, h, j, EntryAt(s.ram, h, j));
    }
  }

  // ---------------------------------------------------------------------- walks

  /** The table reached from a table is one level down and records where it hangs. */
  lemma NextOwner(s: State, t: Frame, i: Index)
    requires Inv(s) && t in s.own && Level(s.own[t]) >= 2 && Next(s.ram, t, i).Some?
    ensures var n := Next(s.ram, t, i).value;
      && n in s.own && Level(s.own[n]) == Level(s.own[t]) - 1
      && (if s.own[t].Root? && Kernel(i) then s.own[n].Shared? && s.own[n].slot == i
          else s.own[n] == Child(Level(s.own[t]) - 1, t, i))
  {
    hide EntryAt;
    assert EntryAt(s.ram, t, i) != UNUSED;
    assert LinkOk(s, t, i, EntryAt(s.ram, t, i));
  }

  /** The three tables a walk visits below its root. */
  lemma WalkOwner(s: State, r: Frame, q: Page)
    requires Inv(s) && IsRoot(s, r) && L1Table(s.ram, r, q).Some?
    ensures Next(s.ram, r, q.l4).Some?
    ensures var t3 := Next(s.ram, r, q.l4).value; var t1 := L1Table(s.ram, r, q).value;
      && t3 in s.own &&
          (if Kernel(q.l4) then s.own[t3].Shared? && s.own[t3].slot == q.l4 else s.own[t3] == Child(3, r, q.l4))
      && t1 in s.own && s.own[t1].Child? && s.own[t1].level == 1 && s.own[t1].index == q.l2
      && var t2 := s.own[t1].parent; t2 in s.own && s.own[t2] == Child(2, t3, q.l3)
  {
    hide EntryAt, Inv;
    NextOwner(s, r, q.l4);
    var t3 := Next(s.ram, r, q.l4).value;
    NextOwner(s, t3, q.l3);
    var t2 := Next(s.ram, t3, q.l3).value;
    NextOwner(s, t2, q.l2);
  }

  /** Two walks that end in the same L1 table walked the same indices, below the same root or in a kernel slot. */
  lemma SameL1SamePath(s: State, r: Frame, q: Page, r': Frame, q': Page)
    requires Inv(s) && IsRoot(s, r) && IsRoot(s, r')
    requires L1Table(s.ram, r, q).Some? && L1Table(s.ram, r', q') == L1Table(s.ram, r, q)
    ensures q'.l4 == q.l4 && q'.l3 == q.l3 && q'.l2 == q.l2
    ensures r' == r || Kernel(q.l4)
    ensures Next(s.ram, r', q.l4) == Next(s.ram, r, q.l4)
  {
    hide EntryAt, Inv, L1Table, Next;
    WalkOwner(s, r, q);
    WalkOwner(s, r', q');
  }

  /** If the entries of all tables stay, so do all walks. */
  lemma WalkKept(s: State, ram': Ram, r: Frame, q: Page)
    requires Inv(s) && IsRoot(s, r)
    requires forall g: Frame, j: Index :: g in s.own && Level(s.own[g]) >= 1 ==>
      EntryAt(ram', g, j) == EntryAt(s.ram, g, j)
    ensures L1Table(ram', r, q) == L1Table(s.ram, r, q) && Translate(ram', r, q) == Translate(s.ram, r, q)
    ensures Next(ram', r, q.l4) == Next(s.ram, r, q.l4)
  {
    hide EntryAt, Inv;
    var t3 := Next(s.ram, r, q.l4);
    if t3.Some? {
      NextOwner(s, r, q.l4);
      var t2 := Next(s.ram, t3.value, q.l3);
      if t2.Some? {
        NextOwner(s, t3.value, q.l3);
        if Next(s.ram, t2.value, q.l2).Some? {
          NextOwner(s, t2.value, q.l2);
        }
      }
    }
  }

  /** Linking an empty table changes no translation. */
  lemma LinkWalk(s: State, p: Frame, i: Index, f: Frame, fl: Flags, r: Frame, q: Page)
    requires Inv(s) && IsRoot(s, r)
    requires p in s.own && Level(s.own[p]) >= 2 && EntryAt(s.ram, p, i) == UNUSED && f in s.own && s.own[f] == Held
    ensures Translate(Link(s, p, i, f, fl).ram, r, q) == Translate(s.ram, r, q)
  {
    hide EntryAt, SetEntry, Inv, Link;
    assert s.ram.Keys == s.own.Keys by { InvKeys(s); }
    LinkEntries(s, p, i, f, fl);
    var t3 := Next(s.ram, r, q.l4);
    if t3.Some? {
      NextOwner(s, r, q.l4);
      var t2 := Next(s.ram, t3.value, q.l3);
      if t2.Some? {
        NextOwner(s, t3.value, q.l3);
        if Next(s.ram, t2.value, q.l2).Some? {
          NextOwner(s, t2.value, q.l2);
        }
      }
    }
  }

  lemma InvKeys(s: State)
    requires Inv(s)
    ensures s.ram.Keys == s.own.Keys
  {
  }

  lemma WidenWalk(s: State, p: Frame, i: Index, fl: Flags, r: Frame, q: Page)
    requires Inv(s) && IsRoot(s, r) && p in s.own && Level(s.own[p]) >= 2 && EntryAt(s.ram, p, i) != UNUSED
    ensures p in s.ram
    ensures Translate(Widen(s, p, i, fl).ram, r, q) == Translate(s.ram, r, q)
    ensures forall g: Frame, j: Index :: Next(Widen(s, p, i, fl).ram, g, j) == Next(s.ram, g, j)
  {
    hide EntryAt, SetEntry, Inv, Translate, L1Table;
    InvKeys(s);
    UsedIsPresent(s, p, i);
    var ram' := Widen(s, p, i, fl).ram;
    SetEntryEffect(s.ram, p, i, Widened(EntryAt(s.ram, p, i), fl));
    assert forall g: Frame, j: Index :: Next(ram', g, j) == Next(s.ram, g, j);
    SameWalk(s, ram', p, i, r, q);
  }

  lemma UsedIsPresent(s: State, t: Frame, i: Index)
    requires Inv(s) && t in s.own && Level(s.own[t]) >= 2 && EntryAt(s.ram, t, i) != UNUSED
    ensures EntryAt(s.ram, t, i).present
  {
    hide EntryAt;
    assert LinkOk(s, t, i, EntryAt(s.ram, t, i));
  }

  /** A change of one entry above L1 that leads where it led changes no translation. */
  lemma SameWalk(s: State, ram': Ram, p: Frame, i: Index, r: Frame, q: Page)
    requires Inv(s) && IsRoot(s, r) && p in s.own && Level(s.own[p]) >= 2
    requires forall g: Frame, j: Index :: Next(ram', g, j) == Next(s.ram, g, j)
    requires forall g: Frame, j: Index :: g != p ==> EntryAt(ram', g, j) == EntryAt(s.ram, g, j)
    ensures Translate(ram', r, q) == Translate(s.ram, r, q)
  {
    hide EntryAt, Inv, Next;
    assert L1Table(ram', r, q) == L1Table(s.ram, r, q);
    if L1Table(s.ram, r, q).Some? {
      WalkOwner(s, r, q);
    }
  }

  function LeafOf(e: Entry): (l: Option<Leaf>) { if e.present then Some(Leaf(e.frame, FlagsOf(e))) else None }

  /** Rewriting one L1 entry changes exactly the walks that end in it. */
  lemma LeafWalk(s: State, ram': Ram, p: Frame, i: Index, r: Frame, q: Page)
    requires Inv(s) && IsRoot(s, r) && p in s.own && Level(s.own[p]) == 1
    requires forall g: Frame, j: Index :: g != p || j != i ==> EntryAt(ram', g, j) == EntryAt(s.ram, g, j)
    ensures L1Table(ram', r, q) == L1Table(s.ram, r, q)
    ensures Translate(ram', r, q) ==
      if L1Table(s.ram, r, q) == Some(p) && q.l1 == i then LeafOf(EntryAt(ram', p, i)) else Translate(s.ram, r, q)
  {
    hide EntryAt, Inv;
    var t3 := Next(s.ram, r, q.l4);
    if t3.Some? {
      NextOwner(s, r, q.l4);
      var t2 := Next(s.ram, t3.value, q.l3);
      if t2.Some? {
        NextOwner(s, t3.value, q.l3);
      }
    }
  }
}
