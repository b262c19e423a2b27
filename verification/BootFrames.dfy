/**
  Building the initial free list from the boot memory map
  (`initialize_free_memory` in kernel/src/memory.rs).
 */
module BootFrames {
  import opened Words
  import opened Arithmetic
  import opened PhysicalMemory
  import opened PageTables
  import opened Addresses
  import opened Memory

  /** A memory region of the boot information, in bytes, `end` exclusive. */
  datatype Region = Region(start: nat, end: nat, usable: bool)

  function AlignDown(x: nat): (r: nat) { x / 4096 * 4096 }

  /** Frames numbered `lo` up to but not including `hi`, in order. */
  function Span(lo: nat, hi: nat): (s: seq<nat>)
    decreases hi - lo
  {
    if lo >= hi then [] else [lo] + Span(lo + 1, hi)
  }

  /** The frames that lie wholly inside a region the kernel may use. */
  function RegionFrames(r: Region): (s: seq<nat>)
  {
    if r.usable && r.start > 0 then Span(AlignUp(r.start, 4096) / 4096, AlignDown(r.end) / 4096) else []
  }

  /** All but the frames `first` to `last`, both included. */
  function Without(s: seq<nat>, first: nat, last: nat): (t: seq<nat>)
  {
    if s == [] then []
    else (if first <= s[0] <= last then [] else [s[0]]) + Without(s[1..], first, last)
  }

  /** The iterator chain: filter regions, expand each to its frames, drop the ramdisk. */
  function UsableFrames(regions: seq<Region>, first: nat, last: nat): (s: seq<nat>)
  {
    if regions == [] then []
    else Without(RegionFrames(regions[0]), first, last) + UsableFrames(regions[1..], first, last)
  }

  // ---------------------------------------------------------------- exactness

  /** Frame `n` is wholly inside region `r`, and the kernel may use `r`. */
  predicate Inside(n: nat, r: Region)
  {
    r.usable && r.start > 0 && r.start <= n * 4096 && n * 4096 + 4096 <= r.end
  }

  lemma {:induction false} SpanIs(lo: nat, hi: nat)
    ensures |Span(lo, hi)| == if lo <= hi then hi - lo else 0
    ensures forall k :: 0 <= k < |Span(lo, hi)| ==> Span(lo, hi)[k] == lo + k
    decreases hi - lo
  {
    if lo < hi {
      SpanIs(lo + 1, hi);
    }
  }

  lemma RegionFramesExact(r: Region, n: nat)
    ensures n in RegionFrames(r) <==> Inside(n, r)
  {
    var lo, hi := AlignUp(r.start, 4096) / 4096, AlignDown(r.end) / 4096;
    SpanIs(lo, hi);
    if r.usable && r.start > 0 {
      if lo <= n < hi {
        assert Span(lo, hi)[n - lo] == n;
      }
      assert n in Span(lo, hi) <==> lo <= n < hi;
    }
  }

  lemma {:induction false} WithoutExact(s: seq<nat>, first: nat, last: nat, n: nat)
    ensures n in Without(s, first, last) <==> n in s && !(first <= n <= last)
  {
    if s != [] {
      WithoutExact(s[1..], first, last, n);
      assert n in s <==> n == s[0] || n in s[1..];
    }
  }

  /**
    The list holds a frame exactly if it lies wholly inside a usable region
    that does not start at address 0, and is not a ramdisk frame.
   */
  lemma {:induction false} UsableExact(regions: seq<Region>, first: nat, last: nat, n: nat)
    ensures n in UsableFrames(regions, first, last) <==>
            (exists k :: 0 <= k < |regions| && Inside(n, regions[k])) && !(first <= n <= last)
    ensures 0 !in UsableFrames(regions, first, last)
  {
    if regions != [] {
      var r := regions[0];
      RegionFramesExact(r, n);
      RegionFramesExact(r, 0);
      WithoutExact(RegionFrames(r), first, last, n);
      WithoutExact(RegionFrames(r), first, last, 0);
      UsableExact(regions[1..], first, last, n);
      if n in UsableFrames(regions[1..], first, last) {
        var k :| 0 <= k < |regions[1..]| && Inside(n, regions[1..][k]);
        assert Inside(n, regions[k + 1]);
      }
      if k :| 0 < k < |regions| && Inside(n, regions[k]) {
        assert Inside(n, regions[1..][k - 1]);
      }
    }
  }

  ghost predicate Disjoint(regions: seq<Region>)
  {
    forall j, k :: 0 <= j < k < |regions| ==> regions[j].end <= regions[k].start || regions[k].end <= regions[j].start
  }

  predicate Increasing(s: seq<nat>)
  {
    forall j, k :: 0 <= j < k < |s| ==> s[j] < s[k]
  }

  lemma {:induction false} WithoutIncreasing(s: seq<nat>, first: nat, last: nat)
    requires Increasing(s)
    ensures Increasing(Without(s, first, last))
  {
    if s != [] {
      WithoutIncreasing(s[1..], first, last);
      var t := Without(s[1..], first, last);
      forall k | 0 <= k < |t| ensures s[0] < t[k] {
        WithoutExact(s[1..], first, last, t[k]);
        var m :| 0 <= m < |s[1..]| && s[1..][m] == t[k];
        assert s[0] < s[m + 1];
      }
    }
  }

  lemma PartIncreasing(r: Region, first: nat, last: nat)
    ensures Increasing(Without(RegionFrames(r), first, last))
  {
    SpanIs(AlignUp(r.start, 4096) / 4096, AlignDown(r.end) / 4096);
    WithoutIncreasing(RegionFrames(r), first, last);
  }

  /** For disjoint regions no frame is listed twice. */
  lemma {:induction false} UsableUnique(regions: seq<Region>, first: nat, last: nat)
    requires Disjoint(regions)
    ensures NoDup(UsableFrames(regions, first, last))
  {
    if regions != [] {
      assert Disjoint(regions[1..]);
      UsableUnique(regions[1..], first, last);
      var a := Without(RegionFrames(regions[0]), first, last);
      var b := UsableFrames(regions[1..], first, last);
      PartIncreasing(regions[0], first, last);
      forall j, k | 0 <= j < |a| && 0 <= k < |b| ensures a[j] != b[k] {
        WithoutExact(RegionFrames(regions[0]), first, last, a[j]);
        RegionFramesExact(regions[0], a[j]);
        UsableExact(regions[1..], first, last, b[k]);
        var m :| 0 <= m < |regions[1..]| && Inside(b[k], regions[1..][m]);
        assert regions[1..][m] == regions[m + 1];
      }
    }
  }

  /** For regions in ascending order the frames ascend too. */
  lemma {:induction false} UsableAscending(regions: seq<Region>, first: nat, last: nat)
    requires forall j, k :: 0 <= j < k < |regions| ==> regions[j].end <= regions[k].start
    ensures Increasing(UsableFrames(regions, first, last))
  {
    if regions != [] {
      UsableAscending(regions[1..], first, last);
      var a := Without(RegionFrames(regions[0]), first, last);
      var b := UsableFrames(regions[1..], first, last);
      PartIncreasing(regions[0], first, last);
      forall j, k | 0 <= j < |a| && 0 <= k < |b| ensures a[j] < b[k] {
        WithoutExact(RegionFrames(regions[0]), first, last, a[j]);
        RegionFramesExact(regions[0], a[j]);
        UsableExact(regions[1..], first, last, b[k]);
        var m :| 0 <= m < |regions[1..]| && Inside(b[k], regions[1..][m]);
        assert regions[1..][m] == regions[m + 1];
      }
    }
  }

  // ------------------------------------------------------------------ the ramdisk

  datatype RangeResult = Range(first: nat, last: nat) | Failed

  /** `translate_page`: the frame of page number `n` under the boot loader's tables. */
  function PageFrame(ram: Ram, root: Frame, n: nat): (f: Option<nat>)
  {
    var l := Translate(ram, root, PageOf(n * 4096));
    if l.None? then None else Some(l.value.frame)
  }

  /** The pages whose translation the first loop looks up. */
  predicate Visited(addr: nat, len: nat, n: nat)
  {
    addr / 4096 <= n < addr / 4096 + AlignUp(len, 4096) / 4096
  }

  /** The pages visited are there, at least one, mapped to consecutive frames. */
  ghost predicate Contiguous(ram: Ram, root: Frame, addr: nat, len: nat)
  {
    var p := PageFrame(ram, root, addr / 4096);
    && len > 0 && p.Some?
    && forall n: nat :: Visited(addr, len, n) ==> PageFrame(ram, root, n) == Some(p.value + (n - addr / 4096))
  }

  function FirstFrame(ram: Ram, root: Frame, addr: nat): (f: nat)
  {
    var p := PageFrame(ram, root, addr / 4096);
    if p.Some? then p.value else 0
  }

  function LastFrame(ram: Ram, root: Frame, addr: nat, len: nat): (f: nat)
  {
    var n := FirstFrame(ram, root, addr) + AlignUp(len, 4096) / 4096;
    if n == 0 then 0 else n - 1
  }

  lemma PageCount(len: nat)
    ensures AlignUp(len, 4096) / 4096 == (len + 4095) / 4096 && (len > 0 <==> AlignUp(len, 4096) / 4096 > 0)
  {
  }

  /**
    The first loop, over the pages of a ramdisk of `len` bytes at virtual
    address `addr`.  A page that is not mapped, a frame that does not follow
    the one before, and an empty ramdisk each panic.
   */
  method RamdiskRange(ram: Ram, root: Frame, addr: nat, len: nat) returns (r: RangeResult)
    ensures r.Range? <==> Contiguous(ram, root, addr, len)
    ensures r.Range? ==> r.first == FirstFrame(ram, root, addr) && r.last == LastFrame(ram, root, addr, len)
  {
    hide PageFrame, AlignUp;
    PageCount(len);
    var base, pages := addr / 4096, AlignUp(len, 4096) / 4096;
    var first: Option<nat>, last: Option<nat> := None, None;
    for i := 0 to pages
      invariant i == 0 ==> first == None && last == None
      invariant i > 0 ==> first == PageFrame(ram, root, base) && first.Some? && last == Some(first.value + i - 1)
      invariant i > 0 ==> forall n: nat :: base <= n < base + i ==>
        PageFrame(ram, root, n) == Some(first.value + (n - base))
    {
      var frame := PageFrame(ram, root, base + i);
      assert Visited(addr, len, base + i);
      if frame.None? {
        return Failed;
      }
      if last.Some? {
        if frame.value != last.value + 1 {
          return Failed;
        }
      } else {
        first := frame;
      }
      last := frame;
    }
    if first.None? {
      return Failed;
    }
    r := Range(first.value, last.value);
  }

  /** Page `n` holds a byte of a ramdisk of `len` bytes at virtual address `addr`. */
  predicate HoldsRamdisk(addr: nat, len: nat, n: nat)
  {
    n * 4096 < addr + len && addr < n * 4096 + 4096
  }

  /** The start offset does not push the last byte over a page boundary; at a page boundary it never does. */
  predicate Covered(addr: nat, len: nat) { addr % 4096 + len <= AlignUp(len, 4096) }

  /**
    The loop visits every page of a non-empty ramdisk exactly when it is
    covered; all but its last page it always does.
   */
  lemma RamdiskCovered(addr: nat, len: nat)
    requires len > 0
    ensures (forall n: nat :: HoldsRamdisk(addr, len, n) ==> Visited(addr, len, n)) <==> Covered(addr, len)
    ensures forall n: nat :: HoldsRamdisk(addr, len, n) && n != (addr + len - 1) / 4096 ==> Visited(addr, len, n)
    ensures addr % 4096 == 0 ==> Covered(addr, len)
  {
    var lastPage := (addr + len - 1) / 4096;
    assert HoldsRamdisk(addr, len, lastPage);
    assert Visited(addr, len, lastPage) <==> Covered(addr, len);
  }

  /** The frame lies in a region that the kernel may use. */
  ghost predicate Usable(regions: seq<Region>, f: nat)
  {
    exists k :: 0 <= k < |regions| && Inside(f, regions[k])
  }

  /** No page of the ramdisk is in a frame of the free list. */
  ghost predicate RamdiskKept(ram: Ram, root: Frame, addr: nat, len: nat, list: seq<nat>)
  {
    forall n: nat :: HoldsRamdisk(addr, len, n) && PageFrame(ram, root, n).Some? ==>
      PageFrame(ram, root, n).value !in list
  }

  /**
    The free list spares the ramdisk exactly if it is covered, or the frame of
    its last page is not usable anyway or is one of the frames visited.
   */
  lemma RamdiskKeptExactly(ram: Ram, root: Frame, addr: nat, len: nat, regions: seq<Region>)
    requires Contiguous(ram, root, addr, len)
    ensures var first, last := FirstFrame(ram, root, addr), LastFrame(ram, root, addr, len);
      var missed := PageFrame(ram, root, (addr + len - 1) / 4096);
      RamdiskKept(ram, root, addr, len, UsableFrames(regions, first, last)) <==>
        Covered(addr, len) || missed.None? || !Usable(regions, missed.value) || first <= missed.value <= last
  {
    hide PageFrame, AlignUp, Inside, UsableFrames;
    PageCount(len);
    RamdiskCovered(addr, len);
    var first, last := FirstFrame(ram, root, addr), LastFrame(ram, root, addr, len);
    forall n: nat | PageFrame(ram, root, n).Some?
      ensures PageFrame(ram, root, n).value in UsableFrames(regions, first, last) <==>
        Usable(regions, PageFrame(ram, root, n).value) && !(first <= PageFrame(ram, root, n).value <= last)
    {
      UsableExact(regions, first, last, PageFrame(ram, root, n).value);
    }
    assert HoldsRamdisk(addr, len, (addr + len - 1) / 4096);
  }

  /** A ramdisk of a page's length that starts inside page 1, in the usable frames 10 and 11: frame 11 is given away. */
  lemma UnalignedRamdiskLosesAFrame(ram: Ram, root: Frame)
    requires PageFrame(ram, root, 1) == Some(10) && PageFrame(ram, root, 2) == Some(11)
    ensures Contiguous(ram, root, 4100, 4096) && HoldsRamdisk(4100, 4096, 2)
    ensures var first, last := FirstFrame(ram, root, 4100), LastFrame(ram, root, 4100, 4096);
      11 in UsableFrames([Region(0xA000, 0xC000, true)], first, last)
  {
    hide PageFrame, UsableFrames;
    var regions := [Region(0xA000, 0xC000, true)];
    assert Inside(11, regions[0]);
    UsableExact(regions, 10, 10, 11);
  }

  // ---------------------------------------------------------------- linking the list

  /**
    The second loop.  It takes frames from a peekable iterator and writes into
    each one a node that points at the frame it peeks.
   */
  method LinkFrames(boot: Ram, frames: seq<Frame>) returns (ram: Ram, head: Option<Frame>, count: nat)
    requires NoDup(frames) && forall k :: 0 <= k < |frames| ==> frames[k] in boot
    ensures head == NextOf(frames, 0) && count == |frames|
    ensures ram.Keys == boot.Keys && forall g: Frame :: g in boot && g !in frames ==> ram[g] == boot[g]
    ensures forall k :: 0 <= k < |frames| ==> NodeAt(ram, frames[k]) == Node(NextOf(frames, k + 1), frames[k])
  {
    hide NodeAt, SetNode, EntryAt;
    ram, count, head := boot, 0, NextOf(frames, 0);
    while count < |frames|
      invariant 0 <= count <= |frames| && ram.Keys == boot.Keys
      invariant forall g: Frame :: g in boot && g !in frames[..count] ==> ram[g] == boot[g]
      invariant forall k :: 0 <= k < count ==> NodeAt(ram, frames[k]) == Node(NextOf(frames, k + 1), frames[k])
    {
      var node := frames[count];
      var n := Node(NextOf(frames, count + 1), node);
      SetNodeEffect(ram, node, n);
      SetNodeFrame(ram, node, n);
      ghost var before := ram;
      ram := SetNode(ram, node, n);
      AllUntouchedBut(before, ram, {node});
      count := count + 1;
    }
  }

  /** Physical addresses have 52 bits. */
  predicate Addressable(regions: seq<Region>)
  {
    forall k :: 0 <= k < |regions| ==> regions[k].end <= 0x10_0000_0000_0000
  }

  lemma UsableBound(regions: seq<Region>, first: nat, last: nat)
    requires Addressable(regions)
    ensures forall k :: 0 <= k < |UsableFrames(regions, first, last)| ==>
      UsableFrames(regions, first, last)[k] < 0x100_0000_0000
  {
    var u := UsableFrames(regions, first, last);
    forall k | 0 <= k < |u| ensures u[k] < 0x100_0000_0000 {
      UsableExact(regions, first, last, u[k]);
    }
  }

  function ManagedFrames(regions: seq<Region>, first: nat, last: nat): (fs: seq<Frame>)
    requires Addressable(regions)
    ensures fs == UsableFrames(regions, first, last)
  {
    UsableBound(regions, first, last);
    UsableFrames(regions, first, last)
  }

  /** What the boot loader leaves: well-formed tables that map none of the frames about to be managed. */
  ghost predicate BootOk(ram: Ram, kernelRoot: Frame, own: map<Frame, Owner>, frames: seq<Frame>)
  {
    var s := State(ram, None, 0, 0, kernelRoot, own, [], {});
    && ram.Keys == own.Keys
    && kernelRoot in own && own[kernelRoot] == Root
    && (forall f: Frame :: f in own ==> Level(own[f]) >= 1 || own[f].Foreign?)
    && DownOk(s) && UpOk(s)
    && (forall k :: 0 <= k < |frames| ==> frames[k] in own && own[frames[k]] == Foreign)
    && (forall t: Frame, i: Index :: t in own && Level(own[t]) == 1 && EntryAt(ram, t, i) != UNUSED ==>
          EntryAt(ram, t, i).frame !in frames)
  }

  /**
    The same in terms of the memory map: usable frames are there and in no use,
    except that the tables may map the pages of the ramdisk to some of them.
   */
  ghost predicate BootTables(ram: Ram, kernelRoot: Frame, own: map<Frame, Owner>, regions: seq<Region>, addr: nat,
                             len: nat)
  {
    && ram.Keys == own.Keys
    && kernelRoot in own && own[kernelRoot] == Root
    && (forall f: Frame :: f in own ==> Level(own[f]) >= 1 || own[f].Foreign?)
    && DownOk(State(ram, None, 0, 0, kernelRoot, own, [], {})) && UpOk(State(ram, None, 0, 0, kernelRoot, own, [], {}))
    && (forall f: Frame :: Usable(regions, f) ==> f in own && own[f] == Foreign)
    && (forall t: Frame, i: Index :: t in own && Level(own[t]) == 1 && EntryAt(ram, t, i) != UNUSED ==>
          !Usable(regions, EntryAt(ram, t, i).frame) ||
            HasRamdisk(ram, kernelRoot, addr, len, EntryAt(ram, t, i).frame))
  }

  ghost predicate HasRamdisk(ram: Ram, root: Frame, addr: nat, len: nat, f: nat)
  {
    exists n: nat :: HoldsRamdisk(addr, len, n) && PageFrame(ram, root, n) == Some(f)
  }

  /** If the ramdisk is covered, leaving it out leaves out every frame that the tables map. */
  lemma CoveredBoots(ram: Ram, kernelRoot: Frame, own: map<Frame, Owner>, regions: seq<Region>, addr: nat, len: nat)
    requires BootTables(ram, kernelRoot, own, regions, addr, len) && Contiguous(ram, kernelRoot, addr, len)
    requires Covered(addr, len)
    requires Addressable(regions)
    ensures BootOk(ram, kernelRoot, own,
      ManagedFrames(regions, FirstFrame(ram, kernelRoot, addr), LastFrame(ram, kernelRoot, addr, len)))
  {
    hide EntryAt, DownOk, UpOk, PageFrame, UsableFrames, Covered, Inside, HoldsRamdisk, FirstFrame, LastFrame,
      Contiguous;
    var first, last := FirstFrame(ram, kernelRoot, addr), LastFrame(ram, kernelRoot, addr, len);
    var frames := ManagedFrames(regions, first, last);
    RamdiskKeptExactly(ram, kernelRoot, addr, len, regions);
    forall f: Frame ensures f in frames ==> Usable(regions, f) && !HasRamdisk(ram, kernelRoot, addr, len, f) {
      UsableExact(regions, first, last, f);
    }
  }

  /** The smallest machine that boots: a zeroed root, and every other frame unmapped. */
  lemma BareMachineBoots(ram: Ram, kernelRoot: Frame, frames: seq<Frame>)
    requires kernelRoot in ram && ram[kernelRoot] == ZeroPage() && kernelRoot !in frames
    requires forall k :: 0 <= k < |frames| ==> frames[k] in ram
    ensures BootOk(ram, kernelRoot, map f: Frame | f in ram :: if f == kernelRoot then Root else Foreign, frames)
  {
    hide EntryAt;
    ZeroPageEffect(ram, kernelRoot);
    assert ram[kernelRoot := ZeroPage()] == ram;
  }

  /** Tables keep their use; everything else is no longer anybody's. */
  function Disowned(own: map<Frame, Owner>): (o: map<Frame, Owner>)
  {
    map f: Frame | f in own :: if Level(own[f]) >= 1 then own[f] else Foreign
  }

  /**
    And one with a ramdisk: any machine that this kernel could be running on,
    with a page mapped for the ramdisk and its free frames as usable regions.
   */
  lemma RunningMachineBoots(s: State, p: Page, regions: seq<Region>)
    requires Inv(s) && Translate(s.ram, s.kernelRoot, p).Some?
    requires forall f: Frame :: Usable(regions, f) ==> f in s.own && s.own[f] == FreeFrame
    ensures BootTables(s.ram, s.kernelRoot, Disowned(s.own), regions, StartOf(p), 4096)
    ensures Contiguous(s.ram, s.kernelRoot, StartOf(p), 4096) && Covered(StartOf(p), 4096)
  {
    hide EntryAt, NodeAt, ListOk, DownOk, UpOk, CleanOk, Usable, Translate, PageOf, BuildAddr;
    var own := Disowned(s.own);
    DisownedDown(s);
    DisownedUp(s);
    forall t: Frame, i: Index | t in own && Level(own[t]) == 1 && EntryAt(s.ram, t, i) != UNUSED
      ensures !Usable(regions, EntryAt(s.ram, t, i).frame)
    {
      LeafNotFree(s, t, i);
    }
    DecomposeBuild(p.l4, p.l3, p.l2, p.l1, 0);
    OnePage(StartOf(p));
  }

  lemma DisownedDown(s: State)
    requires DownOk(s)
    ensures DownOk(State(s.ram, None, 0, 0, s.kernelRoot, Disowned(s.own), [], {}))
  {
    hide EntryAt;
    var s' := State(s.ram, None, 0, 0, s.kernelRoot, Disowned(s.own), [], {});
    forall f: Frame, i: Index | f in s'.own && Level(s'.own[f]) >= 1 && EntryAt(s'.ram, f, i) != UNUSED
      ensures LinkOk(s', f, i, EntryAt(s'.ram, f, i))
    {
      assert LinkOk(s, f, i, EntryAt(s.ram, f, i));
    }
  }

  lemma DisownedUp(s: State)
    requires UpOk(s)
    ensures UpOk(State(s.ram, None, 0, 0, s.kernelRoot, Disowned(s.own), [], {}))
  {
    hide EntryAt;
    var s' := State(s.ram, None, 0, 0, s.kernelRoot, Disowned(s.own), [], {});
    forall f: Frame | f in s'.own ensures UpOk1(s', f) {
      assert UpOk1(s, f);
    }
  }

  lemma LeafNotFree(s: State, t: Frame, i: Index)
    requires DownOk(s) && t in s.own && Level(s.own[t]) == 1 && EntryAt(s.ram, t, i) != UNUSED
    ensures EntryAt(s.ram, t, i).frame in s.own && s.own[EntryAt(s.ram, t, i).frame] != FreeFrame
  {
    hide EntryAt;
    assert LinkOk(s, t, i, EntryAt(s.ram, t, i));
  }

  lemma OnePage(a: nat)
    requires a % 4096 == 0
    ensures a / 4096 * 4096 == a && Covered(a, 4096) && forall n: nat :: Visited(a, 4096, n) <==> n == a / 4096
  {
  }

  function Owners(own: map<Frame, Owner>, frames: seq<Frame>): (o: map<Frame, Owner>)
  {
    map f: Frame | f in own :: if f in frames then FreeFrame else own[f]
  }

  lemma BootInv(boot: Ram, ram: Ram, kernelRoot: Frame, own: map<Frame, Owner>, frames: seq<Frame>)
    requires BootOk(boot, kernelRoot, own, frames) && NoDup(frames) && 0 !in frames
    requires ram.Keys == boot.Keys && forall g: Frame :: g in boot && g !in frames ==> ram[g] == boot[g]
    requires forall k :: 0 <= k < |frames| ==> NodeAt(ram, frames[k]) == Node(NextOf(frames, k + 1), frames[k])
    ensures var pool := set f | f in frames;
      Inv(State(ram, NextOf(frames, 0), |frames|, |frames|, kernelRoot, Owners(own, frames), frames, pool))
  {
    hide NodeAt, EntryAt, NextOf, ListOk, DownOk, UpOk, PoolOk, CleanOk;
    var pool := set f | f in frames;
    var s := State(boot, None, 0, 0, kernelRoot, own, [], {});
    var s' := State(ram, NextOf(frames, 0), |frames|, |frames|, kernelRoot, Owners(own, frames), frames, pool);
    BootPool(s', own, frames);
    BootList(s', own, frames);
    AllUntouchedBut(boot, ram, pool);
    BootDown(s, s', frames);
    BootUp(s, s', frames);
  }

  /** The managed frames are the pool, and none of them is a table yet. */
  lemma BootPool(s: State, own: map<Frame, Owner>, frames: seq<Frame>)
    requires s.own == Owners(own, frames) && s.pool == (set f | f in frames) && s.total == |frames|
    requires s.ram.Keys == own.Keys
    requires NoDup(frames) && 0 !in frames && s.kernelRoot in own && own[s.kernelRoot] == Root
    requires forall f: Frame :: f in own ==> Level(own[f]) >= 1 || own[f].Foreign?
    requires forall k :: 0 <= k < |frames| ==> frames[k] in own && own[frames[k]] == Foreign
    ensures PoolOk(s) && CleanOk(s)
  {
    hide EntryAt, NoDup;
    DistinctSize(frames, s.pool);
  }

  lemma BootList(s: State, own: map<Frame, Owner>, frames: seq<Frame>)
    requires s.own == Owners(own, frames) && s.list == frames && s.head == NextOf(frames, 0) && s.free == |frames|
    requires NoDup(frames) && s.ram.Keys == own.Keys
    requires forall k :: 0 <= k < |frames| ==> frames[k] in own
    requires forall f: Frame :: f in own && own[f] == FreeFrame ==> f in frames
    requires forall k :: 0 <= k < |frames| ==> NodeAt(s.ram, frames[k]) == Node(NextOf(frames, k + 1), frames[k])
    ensures ListOk(s)
  {
    hide NodeAt, NextOf;
  }

  lemma BootDown(s: State, s': State, frames: seq<Frame>)
    requires BootOk(s.ram, s.kernelRoot, s.own, frames) && s == State(s.ram, None, 0, 0, s.kernelRoot, s.own, [], {})
    requires s'.own == Owners(s.own, frames)
    requires forall g: Frame, j: Index :: g !in frames ==> EntryAt(s'.ram, g, j) == EntryAt(s.ram, g, j)
    ensures DownOk(s')
  {
    hide EntryAt, UpOk;
    forall f: Frame, i: Index | f in s'.own && Level(s'.own[f]) >= 1 && EntryAt(s'.ram, f, i) != UNUSED
      ensures LinkOk(s', f, i, EntryAt(s'.ram, f, i))
    {
      assert f !in frames && s'.own[f] == s.own[f] && EntryAt(s'.ram, f, i) == EntryAt(s.ram, f, i);
      assert LinkOk(s, f, i, EntryAt(s.ram, f, i));
      hide DownOk;
    }
  }

  lemma BootUp(s: State, s': State, frames: seq<Frame>)
    requires BootOk(s.ram, s.kernelRoot, s.own, frames) && s == State(s.ram, None, 0, 0, s.kernelRoot, s.own, [], {})
    requires s'.own == Owners(s.own, frames)
    requires forall g: Frame, j: Index :: g !in frames ==> EntryAt(s'.ram, g, j) == EntryAt(s.ram, g, j)
    ensures UpOk(s')
  {
    hide EntryAt, DownOk;
    forall f: Frame | f in s'.own ensures UpOk1(s', f) {
      assert UpOk1(s, f);
    }
  }

  /**
    `Memory::new`.  The free list is the usable frames in the order of the
    memory map, without those of the ramdisk's pages that were visited; if the
    ramdisk is covered, none of its bytes is in the list and the invariant that
    everything else rests on holds from here.
   */
  method NewMemory(boot: Ram, kernelRoot: Frame, regions: seq<Region>, addr: nat, len: nat,
                   ghost own: map<Frame, Owner>)
    returns (m: Memory?)
    requires Disjoint(regions) && Addressable(regions) && BootTables(boot, kernelRoot, own, regions, addr, len)
    ensures m != null <==> Contiguous(boot, kernelRoot, addr, len)
    ensures m != null ==> fresh(m) && m.kernelPageTable == kernelRoot && m.totalFrames == m.freeFrames == |m.list|
    ensures m != null ==>
      m.list == UsableFrames(regions, FirstFrame(boot, kernelRoot, addr), LastFrame(boot, kernelRoot, addr, len))
    ensures m != null ==> forall f: Frame :: f in m.list <==>
      Usable(regions, f) && !exists n: nat :: Visited(addr, len, n) && PageFrame(boot, kernelRoot, n) == Some(f)
    ensures m != null && Covered(addr, len) ==> m.Valid() && RamdiskKept(boot, kernelRoot, addr, len, m.list)
  {
    hide NodeAt, EntryAt, Inv, NextOf, UsableFrames, PageFrame, FirstFrame, LastFrame, Contiguous, Covered, Inside,
      DownOk, UpOk;
    var r := RamdiskRange(boot, kernelRoot, addr, len);
    if r.Failed? {
      return null;
    }
    var first, last := r.first, r.last;
    var frames := ManagedFrames(regions, first, last);
    UsableUnique(regions, first, last);
    ManagedAreThere(boot, kernelRoot, own, regions, addr, len, first, last);
    var ram, head, count := LinkFrames(boot, frames);
    m := new Memory(ram, head, count, kernelRoot, Owners(own, frames), frames, set f | f in frames);
    ListedExactly(boot, kernelRoot, addr, len, regions);
    if Covered(addr, len) {
      CoveredBoots(boot, kernelRoot, own, regions, addr, len);
      BootInv(boot, ram, kernelRoot, own, frames);
      RamdiskKeptExactly(boot, kernelRoot, addr, len, regions);
    }
  }

  /** The list holds the usable frames that no visited page maps. */
  lemma ListedExactly(ram: Ram, root: Frame, addr: nat, len: nat, regions: seq<Region>)
    requires Contiguous(ram, root, addr, len)
    ensures forall f: nat ::
      f in UsableFrames(regions, FirstFrame(ram, root, addr), LastFrame(ram, root, addr, len)) <==>
        Usable(regions, f) && !exists n: nat :: Visited(addr, len, n) && PageFrame(ram, root, n) == Some(f)
  {
    hide PageFrame, UsableFrames, Inside, AlignUp;
    PageCount(len);
    var first, last := FirstFrame(ram, root, addr), LastFrame(ram, root, addr, len);
    forall f: nat ensures f in UsableFrames(regions, first, last) <==>
      Usable(regions, f) && !exists n: nat :: Visited(addr, len, n) && PageFrame(ram, root, n) == Some(f)
    {
      UsableExact(regions, first, last, f);
      if first <= f <= last {
        var n: nat := addr / 4096 + (f - first);
        assert Visited(addr, len, n) && PageFrame(ram, root, n) == Some(f);
      }
    }
  }

  lemma ManagedAreThere(boot: Ram, kernelRoot: Frame, own: map<Frame, Owner>, regions: seq<Region>, addr: nat, len: nat,
                        first: nat, last: nat)
    requires BootTables(boot, kernelRoot, own, regions, addr, len) && Addressable(regions)
    ensures forall k :: 0 <= k < |ManagedFrames(regions, first, last)| ==>
      ManagedFrames(regions, first, last)[k] in boot
    ensures 0 !in ManagedFrames(regions, first, last)
  {
    hide EntryAt, UsableFrames, Inside, DownOk, UpOk, HasRamdisk;
    var frames := ManagedFrames(regions, first, last);
    UsableExact(regions, first, last, 0);
    forall k | 0 <= k < |frames| ensures frames[k] in boot {
      UsableExact(regions, first, last, frames[k]);
      assert Usable(regions, frames[k]);
    }
  }
}
