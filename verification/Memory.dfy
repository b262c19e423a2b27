/**
  `Memory` and `BootInfoFrameAllocator` (kernel/src/memory.rs) as the object
  they are: fields updated in place.  Each method is proved to take the state
  to the one that MemoryOps specifies; what that means for the page tables,
  the free list and the other address spaces is proved there and in
  AddressSpaces.
 */
module Memory {
  import opened Words
  import opened PhysicalMemory
  import opened PageTables
  import opened MemoryOps

  class Memory {
    var ram: Ram
    var freeMemoryHead: Option<Frame>
    var freeFrames: nat
    var totalFrames: nat
    var kernelPageTable: Frame
    ghost var own: map<Frame, Owner>
    ghost var list: seq<Frame>
    ghost var pool: set<Frame>

    ghost function S(): (s: State)
      reads this
    {
      State(ram, freeMemoryHead, freeFrames, totalFrames, kernelPageTable, own, list, pool)
    }

    constructor (memory: Ram, head: Option<Frame>, count: nat, root: Frame,
                 ghost owners: map<Frame, Owner>, ghost chain: seq<Frame>, ghost managed: set<Frame>)
      ensures S() == State(memory, head, count, count, root, owners, chain, managed)
    {
      ram, freeMemoryHead, freeFrames, totalFrames, kernelPageTable := memory, head, count, count, root;
      own, list, pool := owners, chain, managed;
    }

    ghost predicate Valid()
      reads this
    {
      Inv(S())
    }

    method AllocateFrame() returns (r: Option<Frame>)
      requires Valid()
      modifies this
      ensures Valid() && S() == Take(old(S()))
      ensures r == if old(freeMemoryHead).None? then None else Some(old(freeMemoryHead).value)
    {
      hide EntryAt, NodeAt, Inv, Translate, Next;
      if freeMemoryHead.None? {
        return None;
      }
      TakeExtends(S());
      var node := freeMemoryHead.value;
      freeFrames := freeFrames - 1;
      freeMemoryHead := NodeAt(ram, node).next;
      own, list := own[node := Held], if list == [] then [] else list[1..];
      r := Some(NodeAt(ram, node).frame);
    }

    method DeallocateFrame(frame: Frame)
      requires Valid() && frame in own && own[frame] == Held
      modifies this
      ensures Valid() && S() == Give(old(S()), frame)
    {
      hide EntryAt, NodeAt, ListOk, DownOk, UpOk, SetNode;
      GiveInv(S(), frame);
      ram := SetNode(ram, frame, Node(freeMemoryHead, frame));
      freeMemoryHead := Some(frame);
      freeFrames := freeFrames + 1;
      own, list := own[frame := FreeFrame], [frame] + list;
    }

    /** `get_memory_utilization`: frames in use, and all frames. */
    method GetMemoryUtilization() returns (used: nat, all: nat)
      requires Valid()
      ensures all == |pool| && used + |list| == all
    {
      hide EntryAt, NodeAt, NextOf, DownOk, UpOk;
      FreeFitsPool(S());
      used, all := totalFrames - freeFrames, totalFrames;
    }

    /** `create_next_table`. */
    method EnsureTable(t: Frame, i: Index, fl: Flags) returns (r: Result<Frame>)
      requires Valid() && t in own && Level(own[t]) >= 2
      modifies this
      ensures Outcome(S(), r) == EnsureNext(old(S()), t, i, fl)
      ensures Valid()
    {
      hide EntryAt, NodeAt, Inv, SetEntry, Extends;
      EnsureKeepsInv(S(), t, i, fl);
      var e := EntryAt(ram, t, i);
      if e == UNUSED {
        if freeMemoryHead.Some? {
          TakeExtends(S());
        }
        var f := AllocateFrame();
        if f.None? {
          return Err(OutOfMemory);
        }
        own := own[f.value := BelowOwner(OwnerOf(S(), t), t, i)];
        ram := ram[f.value := ZeroPage()];
        ram := SetEntry(ram, t, i, LinkEntry(f.value, fl));
        r := Ok(f.value);
      } else {
        ram := SetEntry(ram, t, i, Widened(e, fl));
        r := if e.huge then Err(HugeParent) else Ok(e.frame);
      }
    }

    /** `map_frame`: walk down from the active table, then write the leaf. */
    method MapFrame(active: Frame, page: Page, fl: Flags, frame: Frame) returns (r: Result<Frame>)
      requires Valid() && IsRoot(S(), active) && frame in own && (own[frame] == Held || own[frame] == Foreign)
      modifies this
      ensures Outcome(S(), r) == MapTo(old(S()), active, page, frame, fl)
      ensures Valid()
    {
      hide EntryAt, NodeAt, Inv, SetEntry, EnsureNext;
      MapKeepsInv(S(), active, page, frame, fl);
      var path := [page.l4, page.l3, page.l2];
      assert path == PathOf(page);
      var t, k := active, 0;
      while k < 3
        invariant 0 <= k <= 3 && Valid() && t in own && Level(own[t]) == 4 - k
        invariant Descend(S(), t, path[k..], fl) == Descend(old(S()), active, path, fl)
      {
        EnsureNextSpec(S(), t, path[k], fl);
        var n := EnsureTable(t, path[k], fl);
        assert path[k..][1..] == path[k + 1..];
        if n.Err? {
          return n;
        }
        t, k := n.value, k + 1;
      }
      if EntryAt(ram, t, page.l1) != UNUSED {
        return Err(AlreadyMapped);
      }
      ram := SetEntry(ram, t, page.l1, LeafEntry(frame, fl));
      own := if OwnerOf(S(), frame).Foreign? then own else own[frame := Child(0, t, page.l1)];
      r := Ok(frame);
    }

    method MapRam(active: Frame, page: Page, fl: Flags) returns (r: Result<Frame>)
      requires Valid() && IsRoot(S(), active)
      modifies this
      ensures Outcome(S(), r) == MemoryOps.MapRam(old(S()), active, page, fl)
      ensures Valid()
    {
      hide EntryAt, NodeAt, Inv, MapTo;
      if freeMemoryHead.Some? {
        TakeExtends(S());
      }
      var f := AllocateFrame();
      if f.None? {
        return Err(OutOfMemory);
      }
      r := MapFrame(active, page, fl, f.value);
    }

    /** `map_ram_kernel`, with its range assertion. */
    method MapRamKernel(active: Frame, page: Page, fl: Flags) returns (r: Result<Frame>)
      requires Valid() && IsRoot(S(), active)
      modifies this
      ensures Outcome(S(), r) == MemoryOps.MapRamKernel(old(S()), active, page, fl)
      ensures Valid()
    {
      hide Inv, MemoryOps.MapRam;
      if !Kernel(page.l4) {
        return Err(OutOfRange);
      }
      r := MapRam(active, page, fl);
    }

    /** `map_ram_user`, with its range assertion. */
    method MapRamUser(active: Frame, page: Page, fl: Flags) returns (r: Result<Frame>)
      requires Valid() && IsRoot(S(), active)
      modifies this
      ensures Outcome(S(), r) == MemoryOps.MapRamUser(old(S()), active, page, fl)
      ensures Valid()
    {
      hide Inv, MemoryOps.MapRam;
      if page.l4 != 0 {
        return Err(OutOfRange);
      }
      r := MapRam(active, page, fl.(user := true));
    }

    /** Walks down the active table; the result is its L1 table. */
    method FindTable(active: Frame, page: Page) returns (t: Option<Frame>)
      ensures t == L1Table(ram, active, page)
    {
      hide EntryAt;
      var path := [page.l4, page.l3, page.l2];
      assert path == PathOf(page);
      L1TableIsWalk(ram, active, page);
      t := Some(active);
      for k := 0 to 3
        invariant t.Some? && WalkPath(ram, t.value, path[k..]) == WalkPath(ram, active, path)
      {
        assert path[k..][1..] == path[k + 1..];
        t := Next(ram, t.value, path[k]);
        if t.None? {
          return;
        }
      }
    }

    method ChangeFlags(active: Frame, page: Page, fl: Flags) returns (r: Result<Frame>)
      requires Valid() && IsRoot(S(), active)
      modifies this
      ensures Outcome(S(), r) == MemoryOps.ChangeFlags(old(S()), active, page, fl)
      ensures Valid()
    {
      hide EntryAt, NodeAt, Inv, SetEntry, L1Table, Updates, OthersKept, LeafUnused, Translate;
      ChangeFlagsMeets(S(), active, page, fl);
      var t := FindTable(active, page);
      if t.None? || EntryAt(ram, t.value, page.l1) == UNUSED {
        return Err(NotMapped);
      }
      var frame := EntryAt(ram, t.value, page.l1).frame;
      ram := SetEntry(ram, t.value, page.l1, LeafEntry(frame, fl));
      r := Ok(frame);
    }

    method Unmap(active: Frame, page: Page) returns (r: Result<Frame>)
      requires Valid() && IsRoot(S(), active)
      modifies this
      ensures Outcome(S(), r) == MemoryOps.Unmap(old(S()), active, page)
      ensures Valid()
    {
      hide EntryAt, NodeAt, Inv, SetEntry, L1Table, Updates, OthersKept;
      UnmapMeets(S(), active, page);
      var t := FindTable(active, page);
      if t.None? || !EntryAt(ram, t.value, page.l1).present {
        return Err(NotMapped);
      }
      var frame := EntryAt(ram, t.value, page.l1).frame;
      own := if OwnerOf(S(), frame).Foreign? then own else own[frame := Held];
      ram := SetEntry(ram, t.value, page.l1, UNUSED);
      r := Ok(frame);
    }

    method UnmapRam(active: Frame, page: Page) returns (r: Result<Frame>)
      requires Valid() && IsRoot(S(), active)
      requires Translate(ram, active, page).Some? ==> Translate(ram, active, page).value.frame in pool
      modifies this
      ensures Outcome(S(), r) == MemoryOps.UnmapRam(old(S()), active, page)
      ensures Valid()
    {
      hide EntryAt, NodeAt, Inv, Updates, OthersKept, MemoryOps.Unmap, Give;
      UnmapMeets(S(), active, page);
      r := Unmap(active, page);
      if r.Ok? {
        DeallocateFrame(r.value);
      }
    }

    /** The sixteen kernel slots, one by one. */
    method CopyKernelSlots(from: Frame, to: Frame)
      modifies this`ram
      ensures ram == CopySlots(old(ram), from, to, KERNEL_SLOTS)
    {
      hide EntryAt, SetEntry;
      for n := 0 to KERNEL_SLOTS
        invariant ram == CopySlots(old(ram), from, to, n)
      {
        ram := SetEntry(ram, to, 100 + n, EntryAt(ram, from, 100 + n));
      }
    }

    /** `create_new_l4_page_table`: zero a frame, then copy the kernel slots of the active table. */
    method CreateUserPageTable(active: Frame) returns (r: Result<Frame>)
      requires Valid() && IsRoot(S(), active)
      modifies this
      ensures Outcome(S(), r) == CreateTable(old(S()), active)
      ensures Valid()
    {
      hide EntryAt, NodeAt, Inv, SetEntry, CopySlots;
      CreateKeepsInv(S(), active);
      if freeMemoryHead.Some? {
        TakeExtends(S());
      }
      var f := AllocateFrame();
      if f.None? {
        return Err(OutOfMemory);
      }
      ram := ram[f.value := ZeroPage()];
      CopyKernelSlots(active, f.value);
      own := own[f.value := Root];
      r := Ok(f.value);
    }
  }

  lemma CreateKeepsInv(s: State, root: Frame)
    requires Inv(s) && IsRoot(s, root)
    ensures Inv(CreateTable(s, root).state)
  {
    hide Inv, CreateTable, EntryAt, Translate, Next;
    CreateTableMeets(s, root);
  }

  lemma MapKeepsInv(s: State, root: Frame, p: Page, f: Frame, fl: Flags)
    requires Inv(s) && IsRoot(s, root) && f in s.own && (s.own[f] == Held || s.own[f] == Foreign)
    ensures Inv(MapTo(s, root, p, f, fl).state)
  {
    hide Inv, MapTo, EntryAt, Translate, Next;
    MapToMeets(s, root, p, f, fl);
  }

  lemma EnsureKeepsInv(s: State, t: Frame, i: Index, fl: Flags)
    requires Inv(s) && t in s.own && Level(s.own[t]) >= 2
    ensures Inv(EnsureNext(s, t, i, fl).state)
  {
    hide Inv, EnsureNext;
    EnsureNextSpec(s, t, i, fl);
  }

  lemma FreeFitsPool(s: State)
    requires Inv(s)
    ensures |s.list| <= |s.pool|
  {
    hide EntryAt, NodeAt, NextOf, DownOk, UpOk;
    var f := set k | 0 <= k < |s.list| :: s.list[k];
    DistinctSize(s.list, f);
    assert f <= s.pool;
    SubsetSize(f, s.pool);
  }

  lemma SubsetSize<T>(a: set<T>, b: set<T>)
    requires a <= b
    ensures |a| <= |b|
  {
    assert b == a + (b - a);
  }
}
