/**
  Loading a program (kernel/src/loader.rs).  `prepare_application` is, for the
  memory system, a list of actions of one core under a fresh table: map the
  pages of a segment, zero it, copy the file bytes, set the final flags, go on
  with the next segment, map the stack.  The lock is released in between, so
  other cores may act between any two of them.
 */
module Loader {
  import opened Words
  import opened PhysicalMemory
  import opened PageTables
  import opened MemoryOps
  import opened Permissions
  import opened AddressSpaces
  import opened Addresses
  import opened Programs
  import opened Loading
  import opened Memory

  // ------------------------------------------------------------------------- programs

  /** A PT_LOAD program header (System V gABI, chapter 5) with the file bytes it names. */
  datatype Segment = Segment(vaddr: nat, memsz: nat, read: bool, write: bool, exec: bool, data: seq<Byte>)

  /** Other headers make `load` or `map_segment` panic before or while they are mapped. */
  predicate Loadable(g: Segment)
  {
    (g.read || g.exec) && |g.data| <= g.memsz && 0 < g.vaddr + g.memsz <= PAGES * 4096
  }

  predicate AllLoadable(segments: seq<Segment>)
  {
    forall k :: 0 <= k < |segments| ==> Loadable(segments[k])
  }

  function SegmentFlags(g: Segment): (fl: Flags)
  {
    Flags(g.write, false, !g.exec || g.write)
  }

  function FirstPage(g: Segment): (n: nat) { g.vaddr / 4096 }

  function PageCount(g: Segment): (n: nat)
  {
    if g.vaddr + g.memsz == 0 then 0 else (g.vaddr + g.memsz - 1) / 4096 + 1 - g.vaddr / 4096
  }

  /** Page `q` holds bytes of segment `g`, or is mapped for them. */
  predicate Covers(g: Segment, q: Page) { InRange(q, FirstPage(g), PageCount(g)) }

  function Zeros(n: nat): (s: seq<Byte>) { seq(n, _ => 0) }

  /** Zero the segment, copy the file bytes, set the final flags. */
  function FillProgram(c: Core, g: Segment): (a: seq<Action>)
    requires Loadable(g)
  {
    StoreRange(c, g.vaddr, Zeros(g.memsz), g.memsz)
    + (StoreRange(c, g.vaddr, g.data, |g.data|)
       + FlagRange(c, FirstPage(g), PageCount(g), SegmentFlags(g).(user := true)))
  }

  /** `map_segment`: map writable, then fill. */
  function SegmentProgram(c: Core, g: Segment): (a: seq<Action>)
    requires Loadable(g)
  {
    MapRange(c, true, FirstPage(g), PageCount(g), SegmentFlags(g).(writable := true)) + FillProgram(c, g)
  }

  function ImageByte(g: Segment, k: nat): (b: Byte) { if k < |g.data| then g.data[k] else 0 }

  /** What one segment adds to an image. */
  lemma SegmentEffect(m: Image, c: Core, g: Segment)
    requires Loadable(g)
    ensures var m' := Expect(m, SegmentProgram(c, g));
      && (forall q: Page ::
            FlagAt(m', q) == if InRange(q, FirstPage(g), PageCount(g)) then Some(SegmentFlags(g).(user := true))
              else FlagAt(m, q))
      && (forall q: Page, off: nat :: off < 4096 ==>
            var a := NumberOf(q) * 4096 + off;
            ByteAt(m', q, off) == if g.vaddr <= a < g.vaddr + g.memsz then Some(ImageByte(g, a - g.vaddr))
              else ByteAt(m, q, off))
  {
    hide NumberOf, Expect, MapRange, StoreRange, FlagRange;
    var fl, n := SegmentFlags(g), PageCount(g);
    var p1 := MapRange(c, true, FirstPage(g), n, fl.(writable := true));
    var p2 := StoreRange(c, g.vaddr, Zeros(g.memsz), g.memsz);
    var p3 := StoreRange(c, g.vaddr, g.data, |g.data|);
    var p4 := FlagRange(c, FirstPage(g), n, fl.(user := true));
    ExpectConcat(m, p1, p2 + (p3 + p4));
    MapRangeEffect(m, c, FirstPage(g), n, fl.(writable := true));
    var m1 := Expect(m, p1);
    ExpectConcat(m1, p2, p3 + p4);
    StoreRangeEffect(m1, c, g.vaddr, Zeros(g.memsz), g.memsz);
    var m2 := Expect(m1, p2);
    ExpectConcat(m2, p3, p4);
    StoreRangeEffect(m2, c, g.vaddr, g.data, |g.data|);
    var m3 := Expect(m2, p3);
    FlagRangeEffect(m3, c, FirstPage(g), n, fl.(user := true));
    var m4 := Expect(m3, p4);
    forall q: Page ensures FlagAt(m4, q) == if InRange(q, FirstPage(g), n) then Some(fl.(user := true))
      else FlagAt(m, q) {
      assert FlagAt(m3, q) == FlagAt(m1, q);
    }
    forall q: Page, off: nat | off < 4096
      ensures ByteAt(m4, q, off) == var a := NumberOf(q) * 4096 + off;
        if g.vaddr <= a < g.vaddr + g.memsz then Some(ImageByte(g, a - g.vaddr)) else ByteAt(m, q, off)
    {
      assert ByteAt(m4, q, off) == ByteAt(m3, q, off);
      assert ByteAt(m1, q, off) == ByteAt(m, q, off);
    }
  }

  /** `load`. */
  function LoadProgram(c: Core, segments: seq<Segment>): (a: seq<Action>)
    requires AllLoadable(segments)
  {
    if segments == [] then []
    else LoadProgram(c, segments[..|segments| - 1]) + SegmentProgram(c, segments[|segments| - 1])
  }

  /** `allocate_stack`: everything but the guard page at the bottom. */
  function StackProgram(c: Core): (a: seq<Action>)
  {
    MapRange(c, true, USER_STACK_START / 4096 + 1, USER_STACK_SIZE / 4096 - 1, DATA_FLAGS)
  }

  /** `prepare_application` after the table was created and made active. */
  function PrepareProgram(c: Core, segments: seq<Segment>): (a: seq<Action>)
    requires AllLoadable(segments)
  {
    LoadProgram(c, segments) + StackProgram(c)
  }

  // ------------------------------------------------------- programs are well ordered

  lemma {:induction false} OrderedConcat(m: Image, p: seq<Action>, q: seq<Action>)
    requires Ordered(m, p) && Ordered(Expect(m, p), q)
    ensures Ordered(m, p + q)
    decreases |p|
  {
    hide Step;
    if p == [] {
      assert p + q == q;
    } else {
      assert (p + q)[1..] == p[1..] + q;
      OrderedConcat(Step(m, p[0]), p[1..], q);
    }
  }

  lemma {:induction false} FreshConcat(m: Image, p: seq<Action>, q: seq<Action>)
    requires FreshMaps(m, p + q)
    ensures FreshMaps(m, p) && FreshMaps(Expect(m, p), q)
    decreases |p|
  {
    hide Step;
    if p == [] {
      assert p + q == q;
    } else {
      assert (p + q)[1..] == p[1..] + q;
      FreshConcat(Step(m, p[0]), p[1..], q);
    }
  }

  lemma {:induction false} MapsOrdered(m: Image, prog: seq<Action>)
    requires forall k :: 0 <= k < |prog| ==> prog[k].MapUserPage?
    ensures Ordered(m, prog)
    decreases |prog|
  {
    if prog != [] {
      MapsOrdered(Step(m, prog[0]), prog[1..]);
    }
  }

  /** What the actions of a range are and which pages they concern. */
  lemma {:induction false} MapRangePages(c: Core, first: nat, n: nat, fl: Flags)
    requires first + n <= PAGES
    ensures forall k :: 0 <= k < |MapRange(c, true, first, n, fl)| ==>
      MapRange(c, true, first, n, fl)[k].MapUserPage? && InRange(MapRange(c, true, first, n, fl)[k].page, first, n)
  {
    hide PageOf, NumberOf;
    if n > 0 {
      MapRangePages(c, first, n - 1, fl);
      NumberOfPage(first + n - 1, PageOf((first + n - 1) * 4096));
    }
  }

  /** A store, or a change of flags to `fl`, inside a range. */
  predicate Edits(c: Core, a: Action, first: nat, n: nat, fl: Flags)
  {
    a.core == c && ((a.SetFlags? && a.flags == fl) || (a.Store? && a.offset < 4096)) && InRange(a.page, first, n)
  }

  lemma {:induction false} FlagRangeEdits(c: Core, first: nat, n: nat, fl: Flags)
    requires first + n <= PAGES
    ensures forall k :: 0 <= k < |FlagRange(c, first, n, fl)| ==>
      FlagRange(c, first, n, fl)[k].SetFlags? && Edits(c, FlagRange(c, first, n, fl)[k], first, n, fl)
  {
    hide PageOf, NumberOf;
    if n > 0 {
      FlagRangeEdits(c, first, n - 1, fl);
      NumberOfPage(first + n - 1, PageOf((first + n - 1) * 4096));
    }
  }

  lemma {:induction false} StoreRangeEdits(c: Core, base: nat, data: seq<Byte>, n: nat, first: nat, count: nat,
                                           fl: Flags)
    requires n <= |data| && first * 4096 <= base && base + n <= (first + count) * 4096 && first + count <= PAGES
    ensures forall k :: 0 <= k < |StoreRange(c, base, data, n)| ==>
      StoreRange(c, base, data, n)[k].Store? && Edits(c, StoreRange(c, base, data, n)[k], first, count, fl)
  {
    hide PageOf, NumberOf;
    if n > 0 {
      StoreRangeEdits(c, base, data, n - 1, first, count, fl);
      var a := base + n - 1;
      NumberOfAddress(a, PageOf(a), a % 4096);
    }
  }

  lemma {:induction false} EditsOrdered(c: Core, m: Image, prog: seq<Action>, first: nat, n: nat, fl: Flags)
    requires forall k :: 0 <= k < |prog| ==> Edits(c, prog[k], first, n, fl)
    requires forall q: Page :: InRange(q, first, n) ==> q in m.flags && Within(fl, m.flags[q])
    ensures Ordered(m, prog)
    decreases |prog|
  {
    hide NumberOf, InRange;
    if prog != [] {
      assert Edits(c, prog[0], first, n, fl);
      EditsOrdered(c, Step(m, prog[0]), prog[1..], first, n, fl);
    }
  }

  function FinalFlags(g: Segment): (fl: Flags) { SegmentFlags(g).(user := true) }

  lemma FillEdits(c: Core, g: Segment)
    requires Loadable(g)
    ensures forall k :: 0 <= k < |FillProgram(c, g)| ==>
      Edits(c, FillProgram(c, g)[k], FirstPage(g), PageCount(g), FinalFlags(g))
  {
    hide StoreRange, FlagRange, Edits;
    var first, n := FirstPage(g), PageCount(g);
    StoreRangeEdits(c, g.vaddr, Zeros(g.memsz), g.memsz, first, n, FinalFlags(g));
    StoreRangeEdits(c, g.vaddr, g.data, |g.data|, first, n, FinalFlags(g));
    FlagRangeEdits(c, first, n, FinalFlags(g));
  }

  lemma SegmentOrdered(m: Image, c: Core, g: Segment)
    requires Loadable(g)
    ensures Ordered(m, SegmentProgram(c, g))
  {
    hide NumberOf, Expect, MapRange, FillProgram, InRange, Ordered, Step, Edits;
    var fl, first, n := SegmentFlags(g).(writable := true), FirstPage(g), PageCount(g);
    var p1 := MapRange(c, true, first, n, fl);
    MapRangePages(c, first, n, fl);
    MapsOrdered(m, p1);
    MapRangeEffect(m, c, first, n, fl);
    var m1 := Expect(m, p1);
    forall q: Page | InRange(q, first, n) ensures q in m1.flags && Within(FinalFlags(g), m1.flags[q]) {
      assert FlagAt(m1, q) == Some(fl.(user := true));
    }
    FillEdits(c, g);
    EditsOrdered(c, m1, FillProgram(c, g), first, n, FinalFlags(g));
    OrderedConcat(m, p1, FillProgram(c, g));
  }

  lemma {:induction false} LoadOrdered(m: Image, c: Core, segments: seq<Segment>)
    requires AllLoadable(segments)
    ensures Ordered(m, LoadProgram(c, segments))
  {
    hide SegmentProgram, Expect;
    if segments != [] {
      var rest, last := segments[..|segments| - 1], segments[|segments| - 1];
      LoadOrdered(m, c, rest);
      SegmentOrdered(Expect(m, LoadProgram(c, rest)), c, last);
      OrderedConcat(m, LoadProgram(c, rest), SegmentProgram(c, last));
    }
  }

  lemma PrepareOrdered(m: Image, c: Core, segments: seq<Segment>)
    requires AllLoadable(segments)
    ensures Ordered(m, PrepareProgram(c, segments))
  {
    hide LoadProgram, MapRange, Expect, InRange;
    LoadOrdered(m, c, segments);
    MapRangePages(c, USER_STACK_START / 4096 + 1, USER_STACK_SIZE / 4096 - 1, DATA_FLAGS);
    MapsOrdered(Expect(m, LoadProgram(c, segments)), StackProgram(c));
    OrderedConcat(m, LoadProgram(c, segments), StackProgram(c));
  }

  // -------------------------------------------------------------- segments do not clash

  lemma {:induction false} FreshRange(m: Image, c: Core, first: nat, n: nat, fl: Flags)
    requires first + n <= PAGES && FreshMaps(m, MapRange(c, true, first, n, fl))
    ensures forall q: Page :: InRange(q, first, n) ==> q !in m.flags
  {
    hide PageOf, NumberOf, Expect, FreshMaps;
    if n > 0 {
      var p := PageOf((first + n - 1) * 4096);
      var before := MapRange(c, true, first, n - 1, fl);
      FreshConcat(m, before, [MapUserPage(c, p, fl)]);
      FreshRange(m, c, first, n - 1, fl);
      MapRangeEffect(m, c, first, n - 1, fl);
      assert p !in Expect(m, before).flags by { FreshOne(Expect(m, before), c, p, fl); }
      assert FlagAt(Expect(m, before), p) == None;
      forall q: Page | InRange(q, first, n) ensures q !in m.flags {
        NumberOfPage(first + n - 1, q);
        NumberOfPage(first + n - 1, p);
        assert FlagAt(m, p).None?;
      }
    }
  }

  lemma FreshOne(m: Image, c: Core, p: Page, fl: Flags)
    requires FreshMaps(m, [MapUserPage(c, p, fl)])
    ensures p !in m.flags
  {
  }

  /** No two segments share a page. */
  ghost predicate PageDisjoint(segments: seq<Segment>)
  {
    forall i, j, q: Page :: 0 <= i < j < |segments| && Covers(segments[i], q) ==>
      !Covers(segments[j], q)
  }

  lemma {:induction false} LoadedFlags(c: Core, segments: seq<Segment>, i: nat, q: Page)
    requires AllLoadable(segments) && i < |segments|
    requires Covers(segments[i], q)
    ensures q in Expect(EMPTY, LoadProgram(c, segments)).flags
  {
    hide SegmentProgram, Expect, InRange;
    var rest, last := segments[..|segments| - 1], segments[|segments| - 1];
    ExpectConcat(EMPTY, LoadProgram(c, rest), SegmentProgram(c, last));
    var m := Expect(EMPTY, LoadProgram(c, rest));
    SegmentEffect(m, c, last);
    if i < |rest| {
      LoadedFlags(c, rest, i, q);
    }
    assert FlagAt(Expect(m, SegmentProgram(c, last)), q).Some?;
  }

  /** A load that ran to its end had page-disjoint segments: an overlap panics with the page already mapped. */
  lemma {:induction false} CompletedMeansDisjoint(c: Core, segments: seq<Segment>)
    requires AllLoadable(segments) && FreshMaps(EMPTY, LoadProgram(c, segments))
    ensures PageDisjoint(segments)
  {
    hide Expect, InRange, FreshMaps, MapRange, FillProgram;
    if segments != [] {
      var rest, last := segments[..|segments| - 1], segments[|segments| - 1];
      FreshConcat(EMPTY, LoadProgram(c, rest), SegmentProgram(c, last));
      CompletedMeansDisjoint(c, rest);
      var m := Expect(EMPTY, LoadProgram(c, rest));
      var fl, n := SegmentFlags(last).(writable := true), PageCount(last);
      var p1 := MapRange(c, true, FirstPage(last), n, fl);
      FreshConcat(m, p1, FillProgram(c, last));
      FreshRange(m, c, FirstPage(last), n, fl);
      forall i, q: Page | 0 <= i < |rest| && Covers(segments[i], q)
        ensures !Covers(last, q)
      {
        LoadedFlags(c, rest, i, q);
      }
    }
  }

  // --------------------------------------------------------------------- the loaded image

  /** Reading address `a` under table `root`. */
  function Load(s: State, root: Frame, a: nat): (b: Option<Byte>)
  {
    var l := Translate(s.ram, root, PageOf(a));
    if l.Some? && l.value.frame in s.ram then Some(s.ram[l.value.frame][a % 4096]) else None
  }

  lemma {:induction false} LoadedBytes(c: Core, segments: seq<Segment>, i: nat, k: nat)
    requires AllLoadable(segments) && PageDisjoint(segments) && i < |segments| && k < segments[i].memsz
    ensures var a := segments[i].vaddr + k;
      ByteAt(Expect(EMPTY, LoadProgram(c, segments)), PageOf(a), a % 4096) == Some(ImageByte(segments[i], k))
    ensures FlagAt(Expect(EMPTY, LoadProgram(c, segments)), PageOf(segments[i].vaddr + k)) ==
      Some(SegmentFlags(segments[i]).(user := true))
  {
    hide SegmentProgram, Expect, NumberOf, PageOf;
    var rest, last := segments[..|segments| - 1], segments[|segments| - 1];
    ExpectConcat(EMPTY, LoadProgram(c, rest), SegmentProgram(c, last));
    var m := Expect(EMPTY, LoadProgram(c, rest));
    SegmentEffect(m, c, last);
    var a := segments[i].vaddr + k;
    var q, off := PageOf(a), a % 4096;
    NumberOfAddress(a, q, off);
    assert Covers(segments[i], q);
    var m' := Expect(m, SegmentProgram(c, last));
    if i < |rest| {
      LoadedBytes(c, rest, i, k);
      assert !Covers(last, q);
      assert !(last.vaddr <= a < last.vaddr + last.memsz);
    }
    assert ByteAt(m', q, off) == Some(ImageByte(segments[i], k));
    assert FlagAt(m', q) == Some(SegmentFlags(segments[i]).(user := true));
  }

  /** A segment's pages are those that hold one of its bytes. */
  lemma CoversExactly(g: Segment, q: Page)
    requires Loadable(g)
    ensures Covers(g, q) <==> g.vaddr < NumberOf(q) * 4096 + 4096 && NumberOf(q) * 4096 < g.vaddr + g.memsz
  {
    hide NumberOf;
  }

  /** The stack's pages are those between its guard page and its end. */
  lemma OnStackExactly(q: Page)
    ensures OnStack(q) <==> USER_STACK_START + 4096 <= NumberOf(q) * 4096 < USER_STACK_START + USER_STACK_SIZE
  {
    hide NumberOf;
  }

  /** Every address of every segment reads the byte of the file, or zero past the file bytes. */
  ghost predicate BytesLoaded(s: State, root: Frame, segments: seq<Segment>)
  {
    forall i, k: nat :: 0 <= i < |segments| && k < segments[i].memsz ==>
      Load(s, root, segments[i].vaddr + k) == Some(if k < |segments[i].data| then segments[i].data[k] else 0)
  }

  /**
    The pages of a segment may be used from user mode, written exactly if its
    header says so, and executed exactly if its header says so and it may not
    be written; the stack may be read and written.
   */
  ghost predicate PermissionsLoaded(s: State, root: Frame, segments: seq<Segment>)
  {
    && (forall i, q: Page :: 0 <= i < |segments| && Covers(segments[i], q) ==>
          Effective(s.ram, root, q) == Some(Flags(segments[i].write, true, segments[i].write || !segments[i].exec)))
    && (forall q: Page :: OnStack(q) ==> Effective(s.ram, root, q) == Some(Flags(true, true, true)))
  }

  /** The user half maps the segments and the stack, and nothing else. */
  ghost predicate NothingElse(s: State, root: Frame, segments: seq<Segment>)
  {
    forall q: Page :: q.l4 == 0 ==> (Translate(s.ram, root, q).Some? <==>
      OnStack(q) || exists i :: 0 <= i < |segments| && Covers(segments[i], q))
  }

  ghost predicate ImageLoaded(s: State, root: Frame, segments: seq<Segment>)
  {
    BytesLoaded(s, root, segments) && PermissionsLoaded(s, root, segments) && NothingElse(s, root, segments)
  }

  /** What an image that the table holds says about it. */
  lemma ImageIsLoaded(s: State, root: Frame, core: Core, segments: seq<Segment>)
    requires AllLoadable(segments) && PageDisjoint(segments)
    requires FreshMaps(Expect(EMPTY, LoadProgram(core, segments)), StackProgram(core))
    requires Holds(s, root, Expect(Expect(EMPTY, LoadProgram(core, segments)), StackProgram(core)))
    ensures ImageLoaded(s, root, segments)
  {
    hide Holds, LoadProgram, StackProgram, Expect, PageOf, Translate, Effective, FreshMaps, NumberOf, Covers, OnStack;
    var m := Expect(EMPTY, LoadProgram(core, segments));
    var m' := Expect(m, StackProgram(core));
    StackEffect(m, core);
    StackFresh(m, core);
    forall i, q: Page | 0 <= i < |segments| && Covers(segments[i], q)
      ensures Effective(s.ram, root, q) == Some(Flags(segments[i].write, true, segments[i].write || !segments[i].exec))
    {
      LoadedPerms(core, segments, i, q);
      assert FlagAt(m', q) == FlagAt(m, q);
      HoldsUser(s, root, m', q);
      HeldPage(s, root, m', q);
    }
    forall q: Page | OnStack(q) ensures Effective(s.ram, root, q) == Some(Flags(true, true, true)) {
      assert FlagAt(m', q) == Some(DATA_FLAGS.(user := true));
      HoldsUser(s, root, m', q);
      HeldPage(s, root, m', q);
    }
    forall i, k: nat | 0 <= i < |segments| && k < segments[i].memsz
      ensures Load(s, root, segments[i].vaddr + k) == Some(if k < |segments[i].data| then segments[i].data[k] else 0)
    {
      var a := segments[i].vaddr + k;
      LoadedBytes(core, segments, i, k);
      assert m'.bytes == m.bytes;
      HeldByte(s, root, m', PageOf(a), a % 4096);
    }
    forall q: Page | q.l4 == 0
      ensures Translate(s.ram, root, q).Some? <==>
        OnStack(q) || exists i :: 0 <= i < |segments| && Covers(segments[i], q)
    {
      HeldPage(s, root, m', q);
      LoadedPages(core, segments, q);
      assert FlagAt(m', q).Some? <==> OnStack(q) || FlagAt(m, q).Some?;
    }
  }

  /**
    The loaded image is exact.  However other cores interleave, once
    `prepare_application` has run to its end every address of every segment
    reads the byte of the file, or zero past the file bytes, and may be used
    for exactly what its header says; the user half maps nothing but the
    segments and the stack.
   */
  lemma LoadedImageExact(y: System, core: Core, root: Frame, segments: seq<Segment>, events: seq<Event>)
    requires SystemInv(y) && IsRoot(y.mem, root) && core in y.cr3 && y.cr3[core] == root && Holds(y.mem, root, EMPTY)
    requires AllLoadable(segments) && Exec(y, core, root, PrepareProgram(core, segments), events)
    requires After(y, core, root, PrepareProgram(core, segments), events).1 == []
    ensures PageDisjoint(segments)
    ensures ImageLoaded(After(y, core, root, PrepareProgram(core, segments), events).0.mem, root, segments)
  {
    hide SystemInv, Inv, IsRoot, Holds, Exec, After, LoadProgram, StackProgram, Expect, FreshMaps, Ordered, Covers,
      ImageLoaded;
    var prog := PrepareProgram(core, segments);
    PrepareOrdered(EMPTY, core, segments);
    ImageAtEveryMoment(y, core, root, EMPTY, prog, events);
    assert prog[..|prog|] == prog;
    FreshConcat(EMPTY, LoadProgram(core, segments), StackProgram(core));
    CompletedMeansDisjoint(core, segments);
    ExpectConcat(EMPTY, LoadProgram(core, segments), StackProgram(core));
    ImageIsLoaded(After(y, core, root, prog, events).0.mem, root, core, segments);
  }

  lemma HoldsUser(s: State, root: Frame, m: Image, q: Page)
    requires Holds(s, root, m) && FlagAt(m, q).Some?
    ensures q.l4 == 0
  {
  }

  lemma StackFresh(m: Image, c: Core)
    requires FreshMaps(m, StackProgram(c))
    ensures forall q: Page :: OnStack(q) ==> q !in m.flags
  {
    hide MapRange, FreshMaps, InRange;
    FreshRange(m, c, USER_STACK_START / 4096 + 1, USER_STACK_SIZE / 4096 - 1, DATA_FLAGS);
  }

  lemma {:induction false} LoadedPerms(c: Core, segments: seq<Segment>, i: nat, q: Page)
    requires AllLoadable(segments) && PageDisjoint(segments) && i < |segments| && Covers(segments[i], q)
    ensures FlagAt(Expect(EMPTY, LoadProgram(c, segments)), q) == Some(SegmentFlags(segments[i]).(user := true))
  {
    hide SegmentProgram, Expect, InRange;
    var rest, last := segments[..|segments| - 1], segments[|segments| - 1];
    ExpectConcat(EMPTY, LoadProgram(c, rest), SegmentProgram(c, last));
    var m := Expect(EMPTY, LoadProgram(c, rest));
    SegmentEffect(m, c, last);
    if i < |rest| {
      LoadedPerms(c, rest, i, q);
      assert !Covers(last, q);
    }
    assert FlagAt(Expect(m, SegmentProgram(c, last)), q) == Some(SegmentFlags(segments[i]).(user := true));
  }

  predicate OnStack(q: Page) { InRange(q, USER_STACK_START / 4096 + 1, USER_STACK_SIZE / 4096 - 1) }

  lemma StackEffect(m: Image, c: Core)
    ensures var m' := Expect(m, StackProgram(c));
      m'.bytes == m.bytes && forall q: Page ::
        FlagAt(m', q) == if OnStack(q) then Some(DATA_FLAGS.(user := true)) else FlagAt(m, q)
  {
    hide MapRange, Expect, InRange;
    MapRangeEffect(m, c, USER_STACK_START / 4096 + 1, USER_STACK_SIZE / 4096 - 1, DATA_FLAGS);
  }

  lemma HeldByte(s: State, root: Frame, m: Image, q: Page, off: nat)
    requires Holds(s, root, m) && ByteAt(m, q, off).Some?
    ensures off < 4096 && Translate(s.ram, root, q).Some?
    ensures var f := Translate(s.ram, root, q).value.frame; f in s.ram && Some(s.ram[f][off]) == ByteAt(m, q, off)
  {
    hide Translate;
    assert ByteHolds(s, root, m, q, off);
  }

  lemma HeldPage(s: State, root: Frame, m: Image, q: Page)
    requires Holds(s, root, m) && q.l4 == 0
    ensures Translate(s.ram, root, q).Some? <==> FlagAt(m, q).Some?
    ensures Translate(s.ram, root, q).Some? ==> FlagAt(m, q) == Some(Translate(s.ram, root, q).value.flags)
    ensures Effective(s.ram, root, q) == FlagAt(m, q)
  {
    hide Translate, PathFlags, PathOf;
    assert PageHolds(s, root, m, q);
  }

  lemma {:induction false} LoadedPages(c: Core, segments: seq<Segment>, q: Page)
    requires AllLoadable(segments)
    ensures FlagAt(Expect(EMPTY, LoadProgram(c, segments)), q).Some? <==>
      exists i :: 0 <= i < |segments| && Covers(segments[i], q)
  {
    hide SegmentProgram, Expect, NumberOf, InRange;
    if segments == [] {
      ExpectNothing(EMPTY);
    } else {
      var rest, last := segments[..|segments| - 1], segments[|segments| - 1];
      ExpectConcat(EMPTY, LoadProgram(c, rest), SegmentProgram(c, last));
      var m := Expect(EMPTY, LoadProgram(c, rest));
      SegmentEffect(m, c, last);
      LoadedPages(c, rest, q);
      var m' := Expect(m, SegmentProgram(c, last));
      assert FlagAt(m', q).Some? <==> Covers(last, q) || FlagAt(m, q).Some?;
      if i :| 0 <= i < |segments| && Covers(segments[i], q) {
        assert i == |rest| || Covers(rest[i], q);
      }
      if i :| 0 <= i < |rest| && Covers(rest[i], q) {
        assert Covers(segments[i], q);
      }
    }
  }

  /** A table that was just created has an empty user half. */
  lemma FreshTableIsEmpty(s: State, active: Frame)
    requires Inv(s) && IsRoot(s, active) && CreateTable(s, active).result.Ok?
    ensures var o := CreateTable(s, active);
      IsRoot(o.state, o.result.value) && o.result.value in o.state.pool && Holds(o.state, o.result.value, EMPTY)
  {
    hide Inv, EntryAt, NodeAt, Translate, Next, CreateTable;
    CreateTableMeets(s, active);
    FreeIsManaged(s, CreateTable(s, active).result.value);
  }

  // ---------------------------------------------------------------- write xor execute

  predicate Safe(fl: Flags) { fl.writable ==> fl.noExec }

  ghost predicate SafeImage(m: Image)
  {
    forall q: Page :: FlagAt(m, q).Some? ==> Safe(FlagAt(m, q).value)
  }

  lemma {:induction false} LoadedSafe(c: Core, segments: seq<Segment>)
    requires AllLoadable(segments)
    ensures SafeImage(Expect(EMPTY, LoadProgram(c, segments)))
  {
    hide SegmentProgram, Expect, NumberOf, InRange;
    if segments == [] {
      ExpectNothing(EMPTY);
    } else {
      var rest, last := segments[..|segments| - 1], segments[|segments| - 1];
      ExpectConcat(EMPTY, LoadProgram(c, rest), SegmentProgram(c, last));
      SegmentEffect(Expect(EMPTY, LoadProgram(c, rest)), c, last);
      LoadedSafe(c, rest);
    }
  }

  predicate Concerns(a: Action, q: Page)
  {
    match a
    case MapUserPage(_, p, _) => p == q
    case SetFlags(_, p, _) => p == q
    case _ => false
  }

  lemma {:induction false} UnconcernedPage(m: Image, prog: seq<Action>, q: Page)
    requires forall k :: 0 <= k < |prog| ==> !Concerns(prog[k], q)
    ensures FlagAt(Expect(m, prog), q) == FlagAt(m, q)
    decreases |prog|
  {
    if prog != [] {
      assert !Concerns(prog[0], q);
      UnconcernedPage(Step(m, prog[0]), prog[1..], q);
    }
  }

  lemma SegmentConcerns(c: Core, g: Segment, q: Page)
    requires Loadable(g) && !Covers(g, q)
    ensures forall k :: 0 <= k < |SegmentProgram(c, g)| ==> !Concerns(SegmentProgram(c, g)[k], q)
  {
    hide MapRange, FillProgram, InRange;
    MapRangePages(c, FirstPage(g), PageCount(g), SegmentFlags(g).(writable := true));
    FillEdits(c, g);
  }

  /** After `k` actions of `load`, `map_segment` is busy with segment `j`. */
  predicate Busy(c: Core, segments: seq<Segment>, k: nat, j: nat)
    requires AllLoadable(segments)
  {
    j < |segments| && |LoadProgram(c, segments[..j])| < k < |LoadProgram(c, segments[..j + 1])|
  }

  /** After the earlier segments and part of the last one, pages outside the last are safe. */
  lemma PartialSafe(c: Core, rest: seq<Segment>, last: Segment, n: nat, q: Page)
    requires AllLoadable(rest) && Loadable(last) && n <= |SegmentProgram(c, last)| && !Covers(last, q)
    ensures var f := FlagAt(Expect(EMPTY, LoadProgram(c, rest) + SegmentProgram(c, last)[..n]), q);
      f.Some? ==> Safe(f.value)
  {
    hide SegmentProgram, Expect, Covers, Safe, LoadProgram, Concerns;
    var before, part := LoadProgram(c, rest), SegmentProgram(c, last)[..n];
    ExpectConcat(EMPTY, before, part);
    SegmentConcerns(c, last, q);
    UnconcernedPage(Expect(EMPTY, before), part, q);
    LoadedSafe(c, rest);
  }

  ghost predicate BusyWith(c: Core, segments: seq<Segment>, k: nat, q: Page)
    requires AllLoadable(segments)
  {
    exists j: nat :: Busy(c, segments, k, j) && Covers(segments[j], q)
  }

  lemma BusyLonger(c: Core, segments: seq<Segment>, k: nat, q: Page)
    requires AllLoadable(segments) && segments != [] && BusyWith(c, segments[..|segments| - 1], k, q)
    ensures BusyWith(c, segments, k, q)
  {
    hide LoadProgram, Covers;
    var rest := segments[..|segments| - 1];
    var j: nat :| Busy(c, rest, k, j) && Covers(rest[j], q);
    assert rest[..j] == segments[..j] && rest[..j + 1] == segments[..j + 1];
    assert Busy(c, segments, k, j) && Covers(segments[j], q);
  }

  lemma {:induction false} LoadPrefixSafe(c: Core, segments: seq<Segment>, k: nat, q: Page)
    requires AllLoadable(segments) && k <= |LoadProgram(c, segments)|
    ensures var f := FlagAt(Expect(EMPTY, LoadProgram(c, segments)[..k]), q);
      (f.Some? ==> Safe(f.value)) || BusyWith(c, segments, k, q)
  {
    hide SegmentProgram, Expect, Covers, Safe, BusyWith;
    var prog := LoadProgram(c, segments);
    if k == |prog| {
      LoadedSafe(c, segments);
      assert prog[..k] == prog;
    } else {
      var rest, last := segments[..|segments| - 1], segments[|segments| - 1];
      var before := LoadProgram(c, rest);
      if k <= |before| {
        LoadPrefixSafe(c, rest, k, q);
        assert prog[..k] == before[..k];
        if BusyWith(c, rest, k, q) {
          BusyLonger(c, segments, k, q);
        }
      } else if Covers(last, q) {
        BusyWithLast(c, segments, k, q);
      } else {
        assert prog[..k] == before + SegmentProgram(c, last)[..k - |before|];
        PartialSafe(c, rest, last, k - |before|, q);
      }
    }
  }

  lemma BusyWithLast(c: Core, segments: seq<Segment>, k: nat, q: Page)
    requires AllLoadable(segments) && segments != [] && Covers(segments[|segments| - 1], q)
    requires |LoadProgram(c, segments[..|segments| - 1])| < k < |LoadProgram(c, segments)|
    ensures BusyWith(c, segments, k, q)
  {
    hide LoadProgram, Covers;
    var n := |segments| - 1;
    assert segments[..n + 1] == segments;
    assert Busy(c, segments, k, n);
  }

  lemma PreparePrefixSafe(c: Core, segments: seq<Segment>, k: nat, q: Page)
    requires AllLoadable(segments) && k <= |PrepareProgram(c, segments)|
    ensures var f := FlagAt(Expect(EMPTY, PrepareProgram(c, segments)[..k]), q);
      (f.Some? ==> Safe(f.value)) || BusyWith(c, segments, k, q)
  {
    hide LoadProgram, Expect, InRange, MapRange, BusyWith;
    var before := LoadProgram(c, segments);
    if k <= |before| {
      LoadPrefixSafe(c, segments, k, q);
      assert PrepareProgram(c, segments)[..k] == before[..k];
    } else {
      var n := k - |before|;
      var part := StackProgram(c)[..n];
      assert PrepareProgram(c, segments)[..k] == before + part;
      ExpectConcat(EMPTY, before, part);
      LoadedSafe(c, segments);
      MapRangePages(c, USER_STACK_START / 4096 + 1, USER_STACK_SIZE / 4096 - 1, DATA_FLAGS);
      StackFlagsOnly(c, USER_STACK_START / 4096 + 1, USER_STACK_SIZE / 4096 - 1);
      SafeMapsKeepSafe(Expect(EMPTY, before), part);
    }
  }

  lemma {:induction false} StackFlagsOnly(c: Core, first: nat, n: nat)
    ensures forall k :: 0 <= k < |MapRange(c, true, first, n, DATA_FLAGS)| ==>
      MapRange(c, true, first, n, DATA_FLAGS)[k].MapUserPage? &&
        MapRange(c, true, first, n, DATA_FLAGS)[k].flags == DATA_FLAGS
  {
    hide PageOf;
    if n > 0 {
      StackFlagsOnly(c, first, n - 1);
    }
  }

  lemma {:induction false} SafeMapsKeepSafe(m: Image, prog: seq<Action>)
    requires SafeImage(m) && forall k :: 0 <= k < |prog| ==> prog[k].MapUserPage? && Safe(prog[k].flags)
    ensures SafeImage(Expect(m, prog))
    decreases |prog|
  {
    if prog != [] {
      var m' := Step(m, prog[0]);
      forall q: Page | FlagAt(m', q).Some? ensures Safe(FlagAt(m', q).value) {
        assert q == prog[0].page || FlagAt(m', q) == FlagAt(m, q);
      }
      SafeMapsKeepSafe(m', prog[1..]);
    }
  }

  /**
    Write xor execute.  At every moment of every interleaving, a user page of
    the program being prepared that is writable is not executable, unless it
    belongs to the one segment that `map_segment` is busy with.
   */
  lemma WriteXorExecute(y: System, core: Core, root: Frame, segments: seq<Segment>, events: seq<Event>)
    requires SystemInv(y) && IsRoot(y.mem, root) && core in y.cr3 && y.cr3[core] == root && Holds(y.mem, root, EMPTY)
    requires AllLoadable(segments) && Exec(y, core, root, PrepareProgram(core, segments), events)
    ensures var r := After(y, core, root, PrepareProgram(core, segments), events);
      |r.1| <= |PrepareProgram(core, segments)| &&
      var k := |PrepareProgram(core, segments)| - |r.1|;
      forall q: Page :: q.l4 == 0 && Translate(r.0.mem.ram, root, q).Some? ==>
        Safe(Translate(r.0.mem.ram, root, q).value.flags) || BusyWith(core, segments, k, q)
  {
    hide SystemInv, Inv, IsRoot, Holds, Exec, After, PrepareProgram, Expect, Translate, Ordered, FreshMaps, BusyWith,
      Safe;
    var prog := PrepareProgram(core, segments);
    PrepareOrdered(EMPTY, core, segments);
    ImageAtEveryMoment(y, core, root, EMPTY, prog, events);
    var r := After(y, core, root, prog, events);
    var k := |prog| - |r.1|;
    forall q: Page | q.l4 == 0 && Translate(r.0.mem.ram, root, q).Some?
      ensures Safe(Translate(r.0.mem.ram, root, q).value.flags) || BusyWith(core, segments, k, q)
    {
      HeldPage(r.0.mem, root, Expect(EMPTY, prog[..k]), q);
      PreparePrefixSafe(core, segments, k, q);
    }
  }

  /** No user page of `root` is both writable and executable. */
  ghost predicate SafeTable(s: State, root: Frame)
  {
    forall q: Page :: q.l4 == 0 && Translate(s.ram, root, q).Some? ==> Safe(Translate(s.ram, root, q).value.flags)
  }

  /** Not a user page mapped, or its flags changed, to writable and executable. */
  predicate Harmless(a: Action)
  {
    match a
    case MapUserPage(_, _, fl) => Safe(fl)
    case MapFrame(_, p, fl, _) => p.l4 == 0 ==> Safe(fl)
    case SetFlags(_, p, fl) => p.l4 == 0 ==> Safe(fl)
    case _ => true
  }

  /**
    What the kernel does under a prepared table is harmless, heap growth with
    DATA_FLAGS included; elsewhere it does anything.
   */
  predicate Ordinary(y: System, root: Frame, a: Action)
  {
    Enabled(y, a) && (y.cr3[a.core] == root ==> Harmless(a))
  }

  lemma OrdinaryKeepsSafe(y: System, root: Frame, a: Action)
    requires SystemInv(y) && IsRoot(y.mem, root) && SafeTable(y.mem, root) && Ordinary(y, root, a)
    ensures SafeTable(Apply(y, a).mem, root)
  {
    hide Inv, Translate, Next, EntryAt, MapRam, CreateTable, StoreTo, Effect, SameView, SameSlot, LeafUnused, Missing,
      Obstructed, L1Table;
    var s, s' := y.mem, Apply(y, a).mem;
    ActionKeeps(y, a);
    if y.cr3[a.core] == root {
      UnderRoot(y, root, a);
    } else {
      forall q: Page | q.l4 == 0 ensures Translate(s'.ram, root, q) == Translate(s.ram, root, q) {
        assert SameView(s, s', root, q) ==>
          Translate(s'.ram, root, q) == Translate(s.ram, root, q) by { ViewIsTranslation(s, s', root, q); }
      }
    }
  }

  lemma ViewIsTranslation(s: State, s': State, r: Frame, q: Page)
    requires SameView(s, s', r, q)
    ensures Translate(s'.ram, r, q) == Translate(s.ram, r, q)
  {
  }

  /** A user page of a safe table that is changed to `l` leaves the table safe exactly if `l` is. */
  lemma SafeUpdate(s: State, s': State, root: Frame, p: Page, l: Option<Leaf>)
    requires IsRoot(s, root) && SafeTable(s, root) && Updates(s, s', root, p, l)
    ensures SafeTable(s', root) <==> (p.l4 == 0 && l.Some? ==> Safe(l.value.flags))
  {
    hide Translate, Next;
    assert Translate(s'.ram, root, p) == l;
  }

  lemma UnderRoot(y: System, root: Frame, a: Action)
    requires SystemInv(y) && IsRoot(y.mem, root) && SafeTable(y.mem, root) && Enabled(y, a) && y.cr3[a.core] == root
    requires Harmless(a)
    ensures SafeTable(Effect(y.mem, root, a), root)
  {
    hide Inv, Translate, Next, EntryAt, NodeAt, MapRam, MapTo, ChangeFlags, Unmap, UnmapRam, CreateTable, StoreTo,
      StoreAt,
      Give, Take, Poke, SameSlot, LeafUnused, Missing, Obstructed, L1Table, Updates, SafeTable, OthersKept;
    var s, s' := y.mem, Effect(y.mem, root, a);
    match a {
      case MapKernelPage(_, p, fl) =>
        if Kernel(p.l4) {
          MapSafe(s, root, p, fl);
        }
      case MapUserPage(_, p, fl) => MapSafe(s, root, p, fl.(user := true));
      case MapFrame(_, p, fl, f) =>
        MapToMeets(s, root, p, f, fl);
        if MapTo(s, root, p, f, fl).result.Ok? {
          SafeUpdate(s, s', root, p, Some(Leaf(f, fl)));
        } else {
          SameSafe(s, s', root);
        }
      case SetFlags(_, p, fl) =>
        ChangeFlagsMeets(s, root, p, fl);
        var o := ChangeFlags(s, root, p, fl);
        if o.result.Ok? {
          SafeUpdate(s, s', root, p, Some(Leaf(o.result.value, fl)));
        }
      case UnmapPage(_, p) =>
        UnmapMeets(s, root, p);
        if Unmap(s, root, p).result.Ok? {
          SafeUpdate(s, s', root, p, None);
        }
      case UnmapRamPage(_, p) =>
        UnmapRamMeets(s, root, p);
        if UnmapRam(s, root, p).result.Ok? {
          SafeUpdate(s, s', root, p, None);
        }
      case CreateUserTable(_) => CreateTableMeets(s, root); SameSafe(s, s', root);
      case Store(_, p, off, b) => StoreInv(s, root, p, off, b); SameSafe(s, s', root);
      case StoreUnprotected(_, p, off, b) => StoreAtInv(s, root, p, off, b); SameSafe(s, s', root);
      case WriteFrame(_, f, off, b) => PokeEffect(s, f, off, b); SameSafe(s, s', root);
      case Allocate(_) => SameRamSafe(s, root);
      case Deallocate(_, f) => GiveWalks(s, f); SameSafe(s, s', root);
      case SwitchTo(_, _) =>
    }
  }

  lemma MapSafe(s: State, root: Frame, p: Page, fl: Flags)
    requires Inv(s) && IsRoot(s, root) && SafeTable(s, root) && (p.l4 == 0 ==> Safe(fl))
    ensures SafeTable(MapRam(s, root, p, fl).state, root)
  {
    hide Inv, Translate, Next, EntryAt, MapRam, LeafUnused, Missing, Obstructed, L1Table, Updates, SafeTable;
    MapRamMeets(s, root, p, fl);
    var o := MapRam(s, root, p, fl);
    if o.result.Ok? {
      SafeUpdate(s, o.state, root, p, Some(Leaf(o.result.value, fl)));
    } else {
      SameSafe(s, o.state, root);
    }
  }

  lemma SameSafe(s: State, s': State, root: Frame)
    requires SafeTable(s, root) && forall q: Page :: Translate(s'.ram, root, q) == Translate(s.ram, root, q)
    ensures SafeTable(s', root)
  {
    hide Translate;
  }

  lemma SameRamSafe(s: State, root: Frame)
    requires SafeTable(s, root)
    ensures SafeTable(Take(s), root)
  {
    hide Translate, NodeAt;
  }

  /** Whatever a loaded program and the other cores go on to do, write xor execute stays. */
  lemma {:induction false} WriteXorExecuteStays(y: System, root: Frame, run: seq<Action>)
    requires SystemInv(y) && IsRoot(y.mem, root) && SafeTable(y.mem, root) && Legal(y, run) && OrdinaryRun(y, root, run)
    ensures SafeTable(Run(y, run).mem, root)
    decreases |run|
  {
    hide Inv, Effect, SafeTable, SameView, Next;
    if run != [] {
      OrdinaryKeepsSafe(y, root, run[0]);
      ActionKeeps(y, run[0]);
      WriteXorExecuteStays(Apply(y, run[0]), root, run[1..]);
    }
  }

  ghost predicate OrdinaryRun(y: System, root: Frame, run: seq<Action>)
    requires Legal(y, run)
    decreases |run|
  {
    run == [] || (Ordinary(y, root, run[0]) && OrdinaryRun(Apply(y, run[0]), root, run[1..]))
  }

  /** A prepared table is safe, however other cores interleaved. */
  lemma PreparedTableSafe(y: System, core: Core, root: Frame, segments: seq<Segment>, events: seq<Event>)
    requires SystemInv(y) && IsRoot(y.mem, root) && core in y.cr3 && y.cr3[core] == root && Holds(y.mem, root, EMPTY)
    requires AllLoadable(segments) && Exec(y, core, root, PrepareProgram(core, segments), events)
    requires After(y, core, root, PrepareProgram(core, segments), events).1 == []
    ensures SafeTable(After(y, core, root, PrepareProgram(core, segments), events).0.mem, root)
  {
    hide SystemInv, Inv, IsRoot, Holds, Exec, After, PrepareProgram, Translate, Safe, Busy;
    WriteXorExecute(y, core, root, segments, events);
    forall j: nat ensures !Busy(core, segments, |PrepareProgram(core, segments)|, j) {
      NotBusyAtTheEnd(core, segments, j);
    }
  }

  /**
    Write xor execute for the life of a program: other cores interleave with
    the loading in any way, then anything ordinary happens in any order, and no
    user page of the program is ever writable and executable.
   */
  lemma WriteXorExecuteForLife(y: System, core: Core, root: Frame, segments: seq<Segment>, events: seq<Event>,
                               run: seq<Action>)
    requires SystemInv(y) && IsRoot(y.mem, root) && core in y.cr3 && y.cr3[core] == root && Holds(y.mem, root, EMPTY)
    requires AllLoadable(segments) && Exec(y, core, root, PrepareProgram(core, segments), events)
    requires After(y, core, root, PrepareProgram(core, segments), events).1 == []
    requires var y' := After(y, core, root, PrepareProgram(core, segments), events).0;
      Legal(y', run) && OrdinaryRun(y', root, run)
    ensures SafeTable(Run(After(y, core, root, PrepareProgram(core, segments), events).0, run).mem, root)
  {
    hide SystemInv, Inv, IsRoot, Holds, Exec, After, PrepareProgram, SafeTable, Legal, OrdinaryRun, Run, Ordered,
      Expect, FreshMaps;
    PreparedTableSafe(y, core, root, segments, events);
    PrepareOrdered(EMPTY, core, segments);
    ImageAtEveryMoment(y, core, root, EMPTY, PrepareProgram(core, segments), events);
    WriteXorExecuteStays(After(y, core, root, PrepareProgram(core, segments), events).0, root, run);
  }

  // ---------------------------------------------------------------- the code itself

  /** Writing bytes through the new mapping, one after the other; a page that may not be written faults. */
  method StoreBytes(m: Memory, core: Core, root: Frame, base: nat, data: seq<Byte>) returns (failure: Option<Failure>)
    requires m.Valid() && IsRoot(m.S(), root)
    modifies m`ram
    ensures m.Valid() && IsRoot(m.S(), root)
    ensures Progress(m.S(), failure) == Perform(old(m.S()), root, StoreRange(core, base, data, |data|))
  {
    hide Inv, EntryAt, PageOf, Translate, Perform, Effective;
    ghost var s0 := m.S();
    PerformNothing(s0, root);
    for k := 0 to |data|
      invariant m.Valid() && IsRoot(m.S(), root)
      invariant Progress(m.S(), None) == Perform(s0, root, StoreRange(core, base, data, k))
    {
      var page, off := PageOf(base + k), (base + k) % 4096;
      StoreInv(m.S(), root, page, off, data[k]);
      PerformSnoc(s0, root, StoreRange(core, base, data, k), Store(core, page, off, data[k]));
      if !MayWrite(m.ram, root, page) {
        StoreRangePrefix(core, base, data, |data|, k + 1);
        PerformStops(s0, root, StoreRange(core, base, data, |data|), k + 1);
        return Some(NotMapped);
      }
      var frame := Translate(m.ram, root, page).value.frame;
      if frame in m.ram {
        m.ram := m.ram[frame := m.ram[frame][off := data[k]]];
      }
    }
    failure := None;
  }

  method FlagPages(m: Memory, core: Core, root: Frame, first: nat, n: nat, fl: Flags) returns (failure: Option<Failure>)
    requires m.Valid() && IsRoot(m.S(), root)
    modifies m
    ensures m.Valid() && IsRoot(m.S(), root)
    ensures Progress(m.S(), failure) == Perform(old(m.S()), root, FlagRange(core, first, n, fl))
  {
    hide Inv, EntryAt, PageOf, IsRoot, MemoryOps.ChangeFlags, Perform;
    ghost var s0 := m.S();
    PerformNothing(s0, root);
    for k := 0 to n
      invariant m.Valid() && IsRoot(m.S(), root)
      invariant Progress(m.S(), None) == Perform(s0, root, FlagRange(core, first, k, fl))
    {
      var page := PageOf((first + k) * 4096);
      FlagsKeepRoot(m.S(), root, page, fl);
      PerformSnoc(s0, root, FlagRange(core, first, k, fl), SetFlags(core, page, fl));
      var r := m.ChangeFlags(root, page, fl);
      if r.Err? {
        FlagRangePrefix(core, first, n, fl, k + 1);
        PerformStops(s0, root, FlagRange(core, first, n, fl), k + 1);
        return Some(r.error);
      }
    }
    failure := None;
  }

  lemma FlagsKeepRoot(s: State, root: Frame, p: Page, fl: Flags)
    requires Inv(s) && IsRoot(s, root)
    ensures IsRoot(MemoryOps.ChangeFlags(s, root, p, fl).state, root)
  {
    hide Inv, MemoryOps.ChangeFlags, SameView, Next;
    ChangeFlagsKeeps(s, root, p, fl);
  }

  /** `map_segment`, alone on the machine: its four loops perform the actions of `SegmentProgram`. */
  method MapSegment(m: Memory, core: Core, root: Frame, g: Segment) returns (failure: Option<Failure>)
    requires m.Valid() && IsRoot(m.S(), root) && Loadable(g)
    modifies m
    ensures m.Valid() && IsRoot(m.S(), root)
    ensures Progress(m.S(), failure) == Perform(old(m.S()), root, SegmentProgram(core, g))
  {
    hide Inv, IsRoot, MapRange, StoreRange, FlagRange, Perform;
    var fl, first, n := SegmentFlags(g), FirstPage(g), PageCount(g);
    ghost var p1 := MapRange(core, true, first, n, fl.(writable := true));
    ghost var p2 := StoreRange(core, g.vaddr, Zeros(g.memsz), g.memsz);
    ghost var p3 := StoreRange(core, g.vaddr, g.data, |g.data|);
    ghost var p4 := FlagRange(core, first, n, fl.(user := true));
    PerformConcat(m.S(), root, p1, p2 + (p3 + p4));
    failure := MapPages(m, core, true, root, first, n, fl.(writable := true));
    if failure.None? {
      PerformConcat(m.S(), root, p2, p3 + p4);
      failure := StoreBytes(m, core, root, g.vaddr, Zeros(g.memsz));
      if failure.None? {
        PerformConcat(m.S(), root, p3, p4);
        failure := StoreBytes(m, core, root, g.vaddr, g.data);
        if failure.None? {
          failure := FlagPages(m, core, root, first, n, fl.(user := true));
        }
      }
    }
  }

  lemma {:induction false} LoadPrefix(c: Core, segments: seq<Segment>, k: nat)
    requires AllLoadable(segments) && k <= |segments|
    ensures var p := LoadProgram(c, segments[..k]);
      |p| <= |LoadProgram(c, segments)| && LoadProgram(c, segments)[..|p|] == p
  {
    hide SegmentProgram;
    if k == |segments| {
      assert segments[..k] == segments;
    } else {
      var rest := segments[..|segments| - 1];
      assert rest[..k] == segments[..k];
      LoadPrefix(c, rest, k);
    }
  }

  /** `load`: one segment after the other. */
  method LoadSegments(m: Memory, core: Core, root: Frame, segments: seq<Segment>) returns (failure: Option<Failure>)
    requires m.Valid() && IsRoot(m.S(), root) && AllLoadable(segments)
    modifies m
    ensures m.Valid() && IsRoot(m.S(), root)
    ensures Progress(m.S(), failure) == Perform(old(m.S()), root, LoadProgram(core, segments))
  {
    hide Inv, IsRoot, Perform, SegmentProgram;
    ghost var s0 := m.S();
    PerformNothing(s0, root);
    for k := 0 to |segments|
      invariant m.Valid() && IsRoot(m.S(), root)
      invariant Progress(m.S(), None) == Perform(s0, root, LoadProgram(core, segments[..k]))
    {
      assert segments[..k + 1][..k] == segments[..k];
      PerformConcat(s0, root, LoadProgram(core, segments[..k]), SegmentProgram(core, segments[k]));
      failure := MapSegment(m, core, root, segments[k]);
      if failure.Some? {
        LoadPrefix(core, segments, k + 1);
        PerformStops(s0, root, LoadProgram(core, segments), |LoadProgram(core, segments[..k + 1])|);
        return;
      }
    }
    assert segments[..|segments|] == segments;
    failure := None;
  }

  /** Performing a program alone is one of the interleavings. */
  lemma {:induction false} AloneIsExec(y: System, core: Core, root: Frame, m: Image, prog: seq<Action>)
    requires SystemInv(y) && IsRoot(y.mem, root) && core in y.cr3 && y.cr3[core] == root && Holds(y.mem, root, m)
    requires Ordered(m, prog) && Perform(y.mem, root, prog).failure.None?
    requires forall k :: 0 <= k < |prog| ==>
      prog[k].core == core && (prog[k].MapUserPage? || prog[k].SetFlags? || (prog[k].Store? && prog[k].offset < 4096))
    ensures Exec(y, core, root, prog, Alone(|prog|))
    ensures After(y, core, root, prog, Alone(|prog|)) == (y.(mem := Perform(y.mem, root, prog).state), [])
    decreases |prog|
  {
    hide SystemInv, IsRoot, Inv, Holds, Effect, Step, Perform, MapRamUser, ChangeFlags, Translate;
    PerformNothing(y.mem, root);
    if prog != [] {
      var a, rest := prog[0], prog[1..];
      assert prog == [a] + rest && [] + [a] == [a];
      PerformConcat(y.mem, root, [a], rest);
      PerformSnoc(y.mem, root, [], a);
      MappedIsUser(y.mem, root, m, a);
      OwnStep(y, core, root, m, a);
      assert Alone(|prog|)[1..] == Alone(|rest|);
      AloneIsExec(Apply(y, a), core, root, Step(m, a), rest);
    }
  }

  function Alone(n: nat): (e: seq<Event>) { seq(n, _ => Own) }

  lemma MappedIsUser(s: State, root: Frame, m: Image, a: Action)
    requires Holds(s, root, m)
    ensures (a.SetFlags? || a.Store?) && a.page in m.flags ==> a.page.l4 == 0
  {
  }

  /** The actions of a load are maps, flag changes and stores of one core. */
  predicate OwnKind(c: Core, a: Action)
  {
    a.core == c && (a.MapUserPage? || a.SetFlags? || (a.Store? && a.offset < 4096))
  }

  lemma {:induction false} MapRangeKind(c: Core, first: nat, n: nat, fl: Flags)
    ensures forall k :: 0 <= k < |MapRange(c, true, first, n, fl)| ==> OwnKind(c, MapRange(c, true, first, n, fl)[k])
  {
    hide PageOf;
    if n > 0 {
      MapRangeKind(c, first, n - 1, fl);
    }
  }

  lemma {:induction false} LoadKind(c: Core, segments: seq<Segment>)
    requires AllLoadable(segments)
    ensures forall k :: 0 <= k < |LoadProgram(c, segments)| ==> OwnKind(c, LoadProgram(c, segments)[k])
  {
    hide MapRange, FillProgram, InRange;
    if segments != [] {
      var last := segments[|segments| - 1];
      LoadKind(c, segments[..|segments| - 1]);
      MapRangeKind(c, FirstPage(last), PageCount(last), SegmentFlags(last).(writable := true));
      FillEdits(c, last);
    }
  }

  lemma PrepareKind(c: Core, segments: seq<Segment>)
    requires AllLoadable(segments)
    ensures forall k :: 0 <= k < |PrepareProgram(c, segments)| ==> OwnKind(c, PrepareProgram(c, segments)[k])
  {
    hide MapRange, LoadProgram, OwnKind;
    LoadKind(c, segments);
    MapRangeKind(c, USER_STACK_START / 4096 + 1, USER_STACK_SIZE / 4096 - 1, DATA_FLAGS);
  }

  lemma PreparedAlone(s: State, core: Core, root: Frame, segments: seq<Segment>)
    requires Inv(s) && IsRoot(s, root) && Holds(s, root, EMPTY) && AllLoadable(segments)
    requires Perform(s, root, PrepareProgram(core, segments)).failure.None?
    ensures ImageLoaded(Perform(s, root, PrepareProgram(core, segments)).state, root, segments)
    ensures SafeTable(Perform(s, root, PrepareProgram(core, segments)).state, root)
  {
    hide Inv, Holds, PrepareProgram, Perform, Exec, After, Ordered, ImageLoaded, SafeTable;
    var y, prog := System(s, map[core := root]), PrepareProgram(core, segments);
    PrepareOrdered(EMPTY, core, segments);
    PrepareKind(core, segments);
    AloneIsExec(y, core, root, EMPTY, prog);
    LoadedImageExact(y, core, root, segments, Alone(|prog|));
    PreparedTableSafe(y, core, root, segments, Alone(|prog|));
  }

  lemma NotBusyAtTheEnd(core: Core, segments: seq<Segment>, j: nat)
    requires AllLoadable(segments)
    ensures !Busy(core, segments, |PrepareProgram(core, segments)|, j)
  {
    hide LoadProgram, MapRange;
    if j < |segments| {
      LoadPrefix(core, segments, j + 1);
    }
  }

  /**
    `load`, then `allocate_stack`, under the new table.  If they come to their
    end on an empty table the image is in place and no page is both writable
    and executable.
   */
  method FillTable(m: Memory, core: Core, root: Frame, segments: seq<Segment>) returns (failure: Option<Failure>)
    requires m.Valid() && IsRoot(m.S(), root) && AllLoadable(segments)
    modifies m
    ensures m.Valid() && IsRoot(m.S(), root)
    ensures Progress(m.S(), failure) == Perform(old(m.S()), root, PrepareProgram(core, segments))
    ensures failure.None? && Holds(old(m.S()), root, EMPTY) ==>
      ImageLoaded(m.S(), root, segments) && SafeTable(m.S(), root)
  {
    hide Inv, IsRoot, MapRange, Perform, LoadProgram, ImageLoaded, SafeTable, Holds;
    ghost var s0 := m.S();
    PerformConcat(s0, root, LoadProgram(core, segments), StackProgram(core));
    failure := LoadSegments(m, core, root, segments);
    if failure.None? {
      failure := MapPages(m, core, true, root, USER_STACK_START / 4096 + 1, USER_STACK_SIZE / 4096 - 1, DATA_FLAGS);
      if failure.None? && Holds(s0, root, EMPTY) {
        PreparedAlone(s0, core, root, segments);
      }
    }
  }

  /**
    `prepare_application`, on a core that has the table `active` active: a new
    table is created, made active and filled, and the kernel's table is active
    again.  Without a failure the program is in its own table, image in place
    and write xor execute.
   */
  method PrepareApplication(m: Memory, core: Core, active: Frame, segments: seq<Segment>)
    returns (table: Result<Frame>, cr3: Frame)
    requires m.Valid() && IsRoot(m.S(), active) && AllLoadable(segments)
    modifies m
    ensures m.Valid()
    ensures var o := CreateTable(old(m.S()), active);
      if o.result.Err? then table == o.result && m.S() == o.state && cr3 == active
      else
        var r := Perform(o.state, o.result.value, PrepareProgram(core, segments));
        m.S() == r.state &&
          (if r.failure.None? then table == o.result && cr3 == m.kernelPageTable else table == Err(r.failure.value))
    ensures table.Ok? ==> IsRoot(m.S(), table.value) && !IsRoot(old(m.S()), table.value)
    ensures table.Ok? ==> ImageLoaded(m.S(), table.value, segments) && SafeTable(m.S(), table.value)
  {
    hide Inv, Perform, PrepareProgram, ImageLoaded, SafeTable, Holds, CreateTable, Next, Translate;
    cr3 := active;
    ghost var s0 := m.S();
    CreateTableMeets(s0, active);
    table := m.CreateUserPageTable(active);
    if table.Err? {
      return;
    }
    FreshTableIsEmpty(s0, active);
    cr3 := table.value;
    var failure := FillTable(m, core, table.value, segments);
    if failure.Some? {
      return Err(failure.value), cr3;
    }
    cr3 := m.kernelPageTable;
  }

  /** A core's own three steps: create a table, make it active, and later the kernel's again. */
  function Opened(y: System, core: Core): (y': System)
    requires core in y.cr3
  {
    var o := CreateTable(y.mem, y.cr3[core]);
    if o.result.Err? then y else System(o.state, y.cr3[core := o.result.value])
  }

  /** From any state of the machine, that is two actions, and leads to what the theorems about loading start from. */
  lemma OpenedReady(y: System, core: Core)
    requires SystemInv(y) && core in y.cr3 && CreateTable(y.mem, y.cr3[core]).result.Ok?
    ensures var root := CreateTable(y.mem, y.cr3[core]).result.value;
      && AddressSpaces.Legal(y, [CreateUserTable(core), SwitchTo(core, root)])
      && AddressSpaces.Run(y, [CreateUserTable(core), SwitchTo(core, root)]) == Opened(y, core)
      && SystemInv(Opened(y, core)) && IsRoot(Opened(y, core).mem, root) && root in Opened(y, core).mem.pool
      && core in Opened(y, core).cr3 && Opened(y, core).cr3[core] == root && Holds(Opened(y, core).mem, root, EMPTY)
      && (forall c: Core :: c in y.cr3 && c != core ==> Opened(y, core).cr3[c] != root)
  {
    hide Inv, CreateTable, Holds, Next, SameView, Translate;
    var o := CreateTable(y.mem, y.cr3[core]);
    var root := o.result.value;
    FreshTableIsEmpty(y.mem, y.cr3[core]);
    CreateTableMeets(y.mem, y.cr3[core]);
    ActionKeeps(y, CreateUserTable(core));
    var y1 := Apply(y, CreateUserTable(core));
    assert y1 == System(o.state, y.cr3);
    assert Enabled(y1, SwitchTo(core, root));
    var y2 := Apply(y1, SwitchTo(core, root));
    assert y2 == Opened(y, core);
    var run := [CreateUserTable(core), SwitchTo(core, root)];
    assert run[1..] == [SwitchTo(core, root)] && run[1..][1..] == [];
    assert AddressSpaces.Legal(y2, []) && AddressSpaces.Run(y2, []) == y2;
    assert AddressSpaces.Legal(y1, run[1..]) && AddressSpaces.Run(y1, run[1..]) == y2;
    assert AddressSpaces.Legal(y, run) && AddressSpaces.Run(y, run) == y2;
  }

  /**
    The whole of `prepare_application`, from any state of the machine and in
    any interleaving: the image is exact and no page writable and executable,
    also after the core has gone back to the kernel's table.
   */
  lemma PreparedFromAnywhere(y: System, core: Core, segments: seq<Segment>, events: seq<Event>)
    requires SystemInv(y) && core in y.cr3 && CreateTable(y.mem, y.cr3[core]).result.Ok? && AllLoadable(segments)
    requires var root := CreateTable(y.mem, y.cr3[core]).result.value;
      && Exec(Opened(y, core), core, root, PrepareProgram(core, segments), events)
      && After(Opened(y, core), core, root, PrepareProgram(core, segments), events).1 == []
    ensures var root := CreateTable(y.mem, y.cr3[core]).result.value;
      var y' := After(Opened(y, core), core, root, PrepareProgram(core, segments), events).0;
      && SystemInv(y') && IsRoot(y'.mem, root) && Enabled(y', SwitchTo(core, y'.mem.kernelRoot))
      && ImageLoaded(Apply(y', SwitchTo(core, y'.mem.kernelRoot)).mem, root, segments)
      && SafeTable(Apply(y', SwitchTo(core, y'.mem.kernelRoot)).mem, root)
      && PageDisjoint(segments)
  {
    hide Inv, CreateTable, Opened, Holds, Exec, After, PrepareProgram, SafeTable, ImageLoaded, Covers, Ordered,
      Expect, FreshMaps;
    OpenedReady(y, core);
    var root := CreateTable(y.mem, y.cr3[core]).result.value;
    LoadedImageExact(Opened(y, core), core, root, segments, events);
    PreparedTableSafe(Opened(y, core), core, root, segments, events);
    PrepareOrdered(EMPTY, core, segments);
    ImageAtEveryMoment(Opened(y, core), core, root, EMPTY, PrepareProgram(core, segments), events);
    RootIsRoot(After(Opened(y, core), core, root, PrepareProgram(core, segments), events).0);
  }
}
