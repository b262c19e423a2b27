/**
  When does a load come to its end?  Exactly when its segments fit: no page is
  wanted twice, by two segments or by a segment and the stack, and none lies
  outside the user range.  Then nothing but a lack of memory can stop it,
  whatever the other cores do in between.
 */
module LoadProgress {
  import opened Words
  import opened PhysicalMemory
  import opened PageTables
  import opened MemoryOps
  import opened Permissions
  import opened AddressSpaces
  import opened Addresses
  import opened Programs
  import opened Loading
  import opened Loader

  /** What the image must be like for an action of the loading core to succeed. */
  predicate Ready(core: Core, m: Image, a: Action)
  {
    && a.core == core
    && match a
       case MapUserPage(_, p, _) => p.l4 == 0 && p !in m.flags
       case SetFlags(_, p, fl) => p.l4 == 0 && p in m.flags && Within(fl, m.flags[p])
       case Store(_, p, off, _) => p.l4 == 0 && p in m.flags && m.flags[p].writable && off < 4096
       case _ => false
  }

  predicate Smooth(core: Core, m: Image, prog: seq<Action>)
    decreases |prog|
  {
    prog == [] || (Ready(core, m, prog[0]) && Smooth(core, Step(m, prog[0]), prog[1..]))
  }

  lemma {:induction false} SmoothConcat(core: Core, m: Image, p: seq<Action>, q: seq<Action>)
    ensures Smooth(core, m, p + q) <==> Smooth(core, m, p) && Smooth(core, Expect(m, p), q)
    decreases |p|
  {
    hide Step, Ready;
    if p == [] {
      assert p + q == q;
    } else {
      assert (p + q)[1..] == p[1..] + q;
      SmoothConcat(core, Step(m, p[0]), p[1..], q);
    }
  }

  lemma SmoothOne(core: Core, m: Image, a: Action)
    ensures Smooth(core, m, [a]) <==> Ready(core, m, a)
  {
    hide Step, Ready;
    assert [a][1..] == [];
  }

  lemma SmoothAt(core: Core, m: Image, prog: seq<Action>, k: nat)
    requires Smooth(core, m, prog) && k < |prog|
    ensures Ready(core, Expect(m, prog[..k]), prog[k])
  {
    hide Step, Ready, Expect;
    assert prog == prog[..k] + ([prog[k]] + prog[k + 1..]);
    SmoothConcat(core, m, prog[..k], [prog[k]] + prog[k + 1..]);
    SmoothConcat(core, Expect(m, prog[..k]), [prog[k]], prog[k + 1..]);
    SmoothOne(core, Expect(m, prog[..k]), prog[k]);
  }

  // ----------------------------------------------------------------- fitting is enough

  lemma {:induction false} MapRangeSmooth(m: Image, c: Core, first: nat, n: nat, fl: Flags)
    requires first + n <= PAGES
    requires forall q: Page :: InRange(q, first, n) ==> q.l4 == 0 && q !in m.flags
    ensures Smooth(c, m, MapRange(c, true, first, n, fl))
  {
    hide PageOf, NumberOf, Expect, Smooth;
    if n == 0 {
      SmoothNothing(c, m);
    } else {
      var p, before := PageOf((first + n - 1) * 4096), MapRange(c, true, first, n - 1, fl);
      MapRangeSmooth(m, c, first, n - 1, fl);
      MapRangeEffect(m, c, first, n - 1, fl);
      NumberOfPage(first + n - 1, p);
      assert InRange(p, first, n) && FlagAt(Expect(m, before), p) == FlagAt(m, p);
      SmoothOne(c, Expect(m, before), MapUserPage(c, p, fl));
      SmoothConcat(c, m, before, [MapUserPage(c, p, fl)]);
    }
  }

  lemma SmoothNothing(c: Core, m: Image)
    ensures Smooth(c, m, [])
  {
  }

  lemma {:induction false} StoresSmooth(c: Core, m: Image, prog: seq<Action>, first: nat, n: nat, fl: Flags)
    requires forall k :: 0 <= k < |prog| ==> prog[k].Store? && Edits(c, prog[k], first, n, fl)
    requires forall q: Page :: InRange(q, first, n) ==> q.l4 == 0 && q in m.flags && m.flags[q].writable
    ensures Smooth(c, m, prog) && Expect(m, prog).flags == m.flags
    decreases |prog|
  {
    hide NumberOf, InRange;
    if prog != [] {
      assert prog[0].Store? && Edits(c, prog[0], first, n, fl);
      StoresSmooth(c, Step(m, prog[0]), prog[1..], first, n, fl);
    }
  }

  lemma {:induction false} FlagsSmooth(c: Core, m: Image, prog: seq<Action>, first: nat, n: nat, fl: Flags)
    requires forall k :: 0 <= k < |prog| ==> prog[k].SetFlags? && Edits(c, prog[k], first, n, fl)
    requires forall q: Page :: InRange(q, first, n) ==> q.l4 == 0 && q in m.flags && Within(fl, m.flags[q])
    ensures Smooth(c, m, prog)
    decreases |prog|
  {
    hide NumberOf, InRange;
    if prog != [] {
      assert prog[0].SetFlags? && Edits(c, prog[0], first, n, fl);
      FlagsSmooth(c, Step(m, prog[0]), prog[1..], first, n, fl);
    }
  }

  /** Filling a segment: its pages are writable while they are written. */
  lemma FillSmooth(m: Image, c: Core, g: Segment)
    requires Loadable(g)
    requires forall q: Page :: Covers(g, q) ==>
      q.l4 == 0 && q in m.flags && m.flags[q].writable && Within(FinalFlags(g), m.flags[q])
    ensures Smooth(c, m, FillProgram(c, g))
  {
    hide NumberOf, Expect, StoreRange, FlagRange, InRange, Smooth, Edits;
    var fl, first, n := FinalFlags(g), FirstPage(g), PageCount(g);
    var p2 := StoreRange(c, g.vaddr, Zeros(g.memsz), g.memsz);
    var p3 := StoreRange(c, g.vaddr, g.data, |g.data|);
    var p4 := FlagRange(c, first, n, fl);
    assert forall q: Page :: InRange(q, first, n) <==> Covers(g, q);
    StoreRangeEdits(c, g.vaddr, Zeros(g.memsz), g.memsz, first, n, fl);
    StoresSmooth(c, m, p2, first, n, fl);
    var m2 := Expect(m, p2);
    StoreRangeEdits(c, g.vaddr, g.data, |g.data|, first, n, fl);
    StoresSmooth(c, m2, p3, first, n, fl);
    var m3 := Expect(m2, p3);
    FlagRangeEdits(c, first, n, fl);
    FlagsSmooth(c, m3, p4, first, n, fl);
    SmoothConcat(c, m2, p3, p4);
    SmoothConcat(c, m, p2, p3 + p4);
  }

  lemma SegmentSmooth(m: Image, c: Core, g: Segment)
    requires Loadable(g) && forall q: Page :: Covers(g, q) ==> q.l4 == 0 && q !in m.flags
    ensures Smooth(c, m, SegmentProgram(c, g))
  {
    hide NumberOf, Expect, MapRange, FillProgram, InRange, Smooth;
    var fl, first, n := SegmentFlags(g).(writable := true), FirstPage(g), PageCount(g);
    var p1 := MapRange(c, true, first, n, fl);
    MapRangeSmooth(m, c, first, n, fl);
    MapRangeEffect(m, c, first, n, fl);
    var m1 := Expect(m, p1);
    forall q: Page | Covers(g, q)
      ensures q.l4 == 0 && q in m1.flags && m1.flags[q].writable && Within(FinalFlags(g), m1.flags[q])
    {
      assert InRange(q, first, n) && FlagAt(m1, q) == Some(fl.(user := true));
    }
    FillSmooth(m1, c, g);
    SmoothConcat(c, m, p1, FillProgram(c, g));
  }

  /** The pages of each segment are user pages, off the stack, and no other segment's. */
  ghost predicate Fits(segments: seq<Segment>)
  {
    PageDisjoint(segments) && forall i, q: Page :: 0 <= i < |segments| && Covers(segments[i], q) ==>
      q.l4 == 0 && !OnStack(q)
  }

  lemma {:induction false} LoadSmooth(c: Core, segments: seq<Segment>)
    requires AllLoadable(segments) && Fits(segments)
    ensures Smooth(c, EMPTY, LoadProgram(c, segments))
  {
    hide SegmentProgram, Expect, Covers, OnStack, Smooth;
    if segments == [] {
      SmoothNothing(c, EMPTY);
    } else {
      var rest, last := segments[..|segments| - 1], segments[|segments| - 1];
      LoadSmooth(c, rest);
      var m := Expect(EMPTY, LoadProgram(c, rest));
      forall q: Page | Covers(last, q) ensures q.l4 == 0 && q !in m.flags {
        LoadedPages(c, rest, q);
        assert segments[|rest|] == last;
        assert forall i :: 0 <= i < |rest| ==> rest[i] == segments[i] && !Covers(segments[i], q);
        assert FlagAt(m, q).None?;
      }
      SegmentSmooth(m, c, last);
      SmoothConcat(c, EMPTY, LoadProgram(c, rest), SegmentProgram(c, last));
    }
  }

  lemma PrepareSmooth(c: Core, segments: seq<Segment>)
    requires AllLoadable(segments) && Fits(segments)
    ensures Smooth(c, EMPTY, PrepareProgram(c, segments))
  {
    hide LoadProgram, Expect, Covers, InRange, Smooth, MapRange;
    LoadSmooth(c, segments);
    var m := Expect(EMPTY, LoadProgram(c, segments));
    forall q: Page | OnStack(q) ensures q.l4 == 0 && q !in m.flags {
      StackIsUser(q);
      LoadedPages(c, segments, q);
      assert FlagAt(m, q).None?;
    }
    MapRangeSmooth(m, c, USER_STACK_START / 4096 + 1, USER_STACK_SIZE / 4096 - 1, DATA_FLAGS);
    SmoothConcat(c, EMPTY, LoadProgram(c, segments), StackProgram(c));
  }

  lemma StackIsUser(q: Page)
    requires OnStack(q)
    ensures q.l4 == 0
  {
  }

  // ------------------------------------------------------------------ and it is needed

  /** A load that reached its end had segments that fit. */
  lemma CompletedMeansFits(y: System, core: Core, root: Frame, segments: seq<Segment>, events: seq<Event>)
    requires SystemInv(y) && IsRoot(y.mem, root) && core in y.cr3 && y.cr3[core] == root && Holds(y.mem, root, EMPTY)
    requires AllLoadable(segments) && Exec(y, core, root, PrepareProgram(core, segments), events)
    requires After(y, core, root, PrepareProgram(core, segments), events).1 == []
    ensures Fits(segments)
  {
    hide SystemInv, Inv, IsRoot, Holds, Exec, After, LoadProgram, StackProgram, Expect, FreshMaps, Ordered, NumberOf,
      Covers;
    var prog := PrepareProgram(core, segments);
    PrepareOrdered(EMPTY, core, segments);
    ImageAtEveryMoment(y, core, root, EMPTY, prog, events);
    var s := After(y, core, root, prog, events).0.mem;
    assert prog[..|prog|] == prog;
    FreshConcat(EMPTY, LoadProgram(core, segments), StackProgram(core));
    CompletedMeansDisjoint(core, segments);
    var m := Expect(EMPTY, LoadProgram(core, segments));
    ExpectConcat(EMPTY, LoadProgram(core, segments), StackProgram(core));
    StackEffect(m, core);
    StackFresh(m, core);
    var m' := Expect(m, StackProgram(core));
    forall i, q: Page | 0 <= i < |segments| && Covers(segments[i], q) ensures q.l4 == 0 && !OnStack(q) {
      LoadedPages(core, segments, q);
      assert FlagAt(m, q).Some?;
      assert FlagAt(m', q).Some?;
      HoldsUser(s, root, m', q);
    }
  }

  // ----------------------------------------------------------------------- the theorem

  lemma {:induction false} PoolStays(y: System, core: Core, root: Frame, prog: seq<Action>, events: seq<Event>,
                                     m: Image)
    requires SystemInv(y) && IsRoot(y.mem, root) && core in y.cr3 && y.cr3[core] == root
    requires Holds(y.mem, root, m) && Ordered(m, prog) && Exec(y, core, root, prog, events)
    ensures After(y, core, root, prog, events).0.mem.pool == y.mem.pool
    decreases |events|
  {
    hide SystemInv, IsRoot, Inv, Holds, OwnAction, Effect, Step, SameView, Next;
    if events != [] {
      match events[0] {
        case Other(a) =>
          OtherStep(y, core, root, m, a);
          ActionKeeps(y, a);
          PoolStays(Apply(y, a), core, root, prog, events[1..], m);
        case Own =>
          var a := prog[0];
          OwnStep(y, core, root, m, a);
          OwnHolds(y, core, root, m, a);
          ActionKeeps(y, a);
          PoolStays(Apply(y, a), core, root, prog[1..], events[1..], Step(m, a));
      }
    }
  }

  /** The next action succeeds, or there is too little memory for it. */
  predicate CanGoOn(y: System, core: Core, root: Frame, a: Action)
  {
    OwnAction(y, core, root, a) ||
      (a.MapUserPage? && MapRamUser(y.mem, root, a.page, a.flags).result == Err(OutOfMemory))
  }

  lemma ReadyGoesOn(y: System, core: Core, root: Frame, m: Image, a: Action)
    requires SystemInv(y) && IsRoot(y.mem, root) && root in y.mem.pool && core in y.cr3 && y.cr3[core] == root
    requires Holds(y.mem, root, m) && Ready(core, m, a)
    ensures CanGoOn(y, core, root, a)
  {
    hide Inv, Translate, MapRamUser, ChangeFlags, Missing, PathOf, LeafUnused;
    assert a.page.l4 == 0;
    HeldPage(y.mem, root, m, a.page);
    match a {
      case MapUserPage(_, p, fl) => MapUserExact(y.mem, root, p, fl);
      case SetFlags(_, p, fl) =>
        ChangeFlagsMeets(y.mem, root, p, fl);
        MappedIsUsed(y.mem.ram, root, p);
      case _ =>
    }
  }

  /**
    Only a lack of memory stops a load.  If the segments fit then, at every
    moment of every interleaving, the next action of the loading core either
    succeeds or is a page that there is too little memory to map.
   */
  lemma OnlyMemoryStopsALoad(y: System, core: Core, root: Frame, segments: seq<Segment>, events: seq<Event>)
    requires SystemInv(y) && IsRoot(y.mem, root) && root in y.mem.pool && core in y.cr3 && y.cr3[core] == root
    requires Holds(y.mem, root, EMPTY)
    requires AllLoadable(segments) && Fits(segments) && Exec(y, core, root, PrepareProgram(core, segments), events)
    ensures var r := After(y, core, root, PrepareProgram(core, segments), events);
      r.1 != [] ==> CanGoOn(r.0, core, root, r.1[0])
  {
    hide SystemInv, Inv, IsRoot, Holds, Exec, After, PrepareProgram, Expect, Ordered, FreshMaps, CanGoOn, Fits,
      Smooth, Ready;
    var prog := PrepareProgram(core, segments);
    PrepareOrdered(EMPTY, core, segments);
    ImageAtEveryMoment(y, core, root, EMPTY, prog, events);
    PoolStays(y, core, root, prog, events, EMPTY);
    PrepareSmooth(core, segments);
    var r := After(y, core, root, prog, events);
    if r.1 != [] {
      var k := |prog| - |r.1|;
      SmoothAt(core, EMPTY, prog, k);
      ReadyGoesOn(r.0, core, root, Expect(EMPTY, prog[..k]), prog[k]);
    }
  }

  // ------------------------------------------------------------------- and it completes

  /** The number of pages that a program maps. */
  function Mappings(prog: seq<Action>): (n: nat)
    decreases |prog|
  {
    if prog == [] then 0 else (if prog[0].MapUserPage? then 1 else 0) + Mappings(prog[1..])
  }

  lemma {:induction false} MappingsConcat(p: seq<Action>, q: seq<Action>)
    ensures Mappings(p + q) == Mappings(p) + Mappings(q)
    decreases |p|
  {
    if p == [] {
      assert p + q == q;
    } else {
      assert (p + q)[1..] == p[1..] + q;
      MappingsConcat(p[1..], q);
    }
  }

  lemma {:induction false} MappingsNone(prog: seq<Action>)
    requires forall k :: 0 <= k < |prog| ==> !prog[k].MapUserPage?
    ensures Mappings(prog) == 0
    decreases |prog|
  {
    if prog != [] {
      MappingsNone(prog[1..]);
    }
  }

  lemma {:induction false} MappingsRange(c: Core, first: nat, n: nat, fl: Flags)
    ensures Mappings(MapRange(c, true, first, n, fl)) == n
  {
    hide PageOf;
    if n > 0 {
      MappingsRange(c, first, n - 1, fl);
      var a := MapUserPage(c, PageOf((first + n - 1) * 4096), fl);
      MappingsConcat(MapRange(c, true, first, n - 1, fl), [a]);
      assert [a][1..] == [] && Mappings([a]) == 1 + Mappings([a][1..]);
    }
  }

  function SegmentPages(segments: seq<Segment>): (n: nat)
  {
    if segments == [] then 0 else SegmentPages(segments[..|segments| - 1]) + PageCount(segments[|segments| - 1])
  }

  lemma {:induction false} MappingsLoad(c: Core, segments: seq<Segment>)
    requires AllLoadable(segments)
    ensures Mappings(LoadProgram(c, segments)) == SegmentPages(segments)
  {
    hide MapRange, FillProgram, PageCount, Mappings;
    if segments == [] {
      MappingsNone([]);
    } else {
      var rest, last := segments[..|segments| - 1], segments[|segments| - 1];
      MappingsLoad(c, rest);
      MappingsConcat(LoadProgram(c, rest), SegmentProgram(c, last));
      var p1 := MapRange(c, true, FirstPage(last), PageCount(last), SegmentFlags(last).(writable := true));
      MappingsConcat(p1, FillProgram(c, last));
      MappingsRange(c, FirstPage(last), PageCount(last), SegmentFlags(last).(writable := true));
      FillEdits(c, last);
      MappingsNone(FillProgram(c, last));
    }
  }

  /** Pages mapped by `prepare_application`. */
  function PreparedPages(segments: seq<Segment>): (n: nat) { SegmentPages(segments) + (USER_STACK_SIZE / 4096 - 1) }

  lemma MappingsPrepare(c: Core, segments: seq<Segment>)
    requires AllLoadable(segments)
    ensures Mappings(PrepareProgram(c, segments)) == PreparedPages(segments)
  {
    hide MapRange, LoadProgram, Mappings, SegmentPages;
    MappingsLoad(c, segments);
    MappingsConcat(LoadProgram(c, segments), StackProgram(c));
    MappingsRange(c, USER_STACK_START / 4096 + 1, USER_STACK_SIZE / 4096 - 1, DATA_FLAGS);
  }

  /** One action that is ready, with memory for it, succeeds and costs one to four frames if it maps a page. */
  lemma ReadyStep(s: State, root: Frame, core: Core, m: Image, a: Action)
    requires Inv(s) && IsRoot(s, root) && root in s.pool && Holds(s, root, m) && Ready(core, m, a)
    requires a.MapUserPage? ==> s.free >= 4
    ensures FailureOf(s, root, a).None?
    ensures var s' := Effect(s, root, a);
      && Inv(s') && IsRoot(s', root) && s'.pool == s.pool && Holds(s', root, Step(m, a))
      && (if a.MapUserPage? then s.free - 4 <= s'.free <= s.free - 1 else s'.free == s.free)
  {
    hide Inv, Holds, Translate, MapRam, ChangeFlags, StoreTo, Missing, Obstructed, PathOf, LeafUnused, Updates,
      OthersKept, Next;
    HeldPage(s, root, m, a.page);
    match a {
      case MapUserPage(_, p, fl) =>
        MapUserExact(s, root, p, fl);
        MapRamMeets(s, root, p, fl.(user := true));
        MapHolds(s, root, m, p, fl);
        MapOneKeeps(s, root, core, true, p, fl);
      case SetFlags(_, p, fl) =>
        ChangeFlagsMeets(s, root, p, fl);
        MappedIsUsed(s.ram, root, p);
        FlagsHold(s, root, m, p, fl);
      case Store(_, p, off, b) =>
        StoreInv(s, root, p, off, b);
        StoreHolds(s, root, m, p, off, b);
      case _ =>
    }
  }

  lemma {:induction false} SmoothCompletes(s: State, root: Frame, core: Core, m: Image, prog: seq<Action>)
    requires Inv(s) && IsRoot(s, root) && root in s.pool && Holds(s, root, m) && Smooth(core, m, prog)
    requires s.free >= 4 * Mappings(prog)
    ensures var r := Perform(s, root, prog);
      r.failure.None? && s.free - 4 * Mappings(prog) <= r.state.free <= s.free - Mappings(prog)
    decreases |prog|
  {
    hide Inv, IsRoot, Holds, Ready, Effect, FailureOf, Step, Perform;
    PerformNothing(s, root);
    if prog != [] {
      var a, rest := prog[0], prog[1..];
      assert prog == [a] + rest && [] + [a] == [a];
      PerformConcat(s, root, [a], rest);
      PerformSnoc(s, root, [], a);
      ReadyStep(s, root, core, m, a);
      SmoothCompletes(Effect(s, root, a), root, core, Step(m, a), rest);
    }
  }

  /**
    A load completes.  With segments that fit and four free frames for each of
    its pages, `prepare_application` under a fresh table comes to its end, and
    takes at least one frame and at most four for each page.
   */
  lemma LoadCompletes(s: State, root: Frame, core: Core, segments: seq<Segment>)
    requires Inv(s) && IsRoot(s, root) && root in s.pool && Holds(s, root, EMPTY)
    requires AllLoadable(segments) && Fits(segments) && s.free >= 4 * PreparedPages(segments)
    ensures var r := Perform(s, root, PrepareProgram(core, segments));
      r.failure.None? && s.free - 4 * PreparedPages(segments) <= r.state.free <= s.free - PreparedPages(segments)
  {
    hide Inv, IsRoot, Holds, PrepareProgram, Perform, Fits, Smooth, PreparedPages, Mappings;
    PrepareSmooth(core, segments);
    MappingsPrepare(core, segments);
    SmoothCompletes(s, root, core, EMPTY, PrepareProgram(core, segments));
  }
}
