/**
  The double buffer (kernel/src/terminal_out.rs): `push_to_frame_buffer` copies
  the visible part of every row from the back to the front buffer, and
  `panic_print` draws straight to the front buffer once it holds the swap lock.
 */
module Refresh {
  import opened Words
  import opened Arithmetic
  import opened Windows

  // ------------------------------------------------------------------------ one copy

  /** Byte `a` of the buffer belongs to the visible part of row `y`. */
  predicate InRow(s: Screen, y: nat, a: nat)
  {
    y * (s.stride * s.bpp) <= a < y * (s.stride * s.bpp) + s.width * s.bpp
  }

  lemma ByteInRow(s: Screen, px: nat, y: nat, k: nat)
    ensures ByteOf(s, px, y, k) == y * (s.stride * s.bpp) + (px * s.bpp + k)
  {
    assert y * (s.stride * s.bpp) == (y * s.stride) * s.bpp;
    assert (y * s.stride + px) * s.bpp == (y * s.stride) * s.bpp + px * s.bpp;
  }

  lemma Quotient(d: nat, n: nat, w: nat)
    requires w > 0 && d < n * w
    ensures d / w < n && d == d / w * w + d % w
  {
    var q := d / w;
    assert d == q * w + d % w;
    if n <= q {
      MulMono(n, q, w);
    }
  }

  /** That is, to one of the screen's pixels in that row. */
  lemma InRowExactly(s: Screen, y: nat, a: nat)
    requires Valid(s)
    ensures InRow(s, y, a) <==> exists px: nat, k: nat :: px < s.width && k < s.bpp && a == ByteOf(s, px, y, k)
  {
    hide ByteOf;
    var start := y * (s.stride * s.bpp);
    if start <= a < start + s.width * s.bpp {
      Quotient(a - start, s.width, s.bpp);
      var px, k := (a - start) / s.bpp, (a - start) % s.bpp;
      ByteInRow(s, px, y, k);
      assert a == ByteOf(s, px, y, k);
    }
    forall px: nat, k: nat | px < s.width && k < s.bpp && a == ByteOf(s, px, y, k) ensures InRow(s, y, a) {
      ByteInRow(s, px, y, k);
      MulStrict(px, s.width, s.bpp);
    }
  }

  ghost predicate RowEqual(s: Screen, front: seq<Byte>, back: seq<Byte>, y: nat)
    requires |front| == |back|
  {
    forall a: nat :: a < |front| && InRow(s, y, a) ==> front[a] == back[a]
  }

  /** `copy_nonoverlapping` of one row. */
  function CopyRow(s: Screen, front: seq<Byte>, back: seq<Byte>, y: nat): (r: seq<Byte>)
    requires |front| == |back|
    ensures |r| == |front|
  {
    seq(|front|, a requires 0 <= a < |front| => if InRow(s, y, a) then back[a] else front[a])
  }

  predicate BufferFits(s: Screen, n: nat) { Valid(s) && n >= s.stride * s.bpp * s.height }

  /** A row copy makes its row equal, keeps the rows that were, and touches no padding. */
  lemma CopyRowEffect(s: Screen, front: seq<Byte>, back: seq<Byte>, y: nat)
    requires Valid(s) && |front| == |back|
    ensures RowEqual(s, CopyRow(s, front, back, y), back, y)
    ensures forall y': nat :: RowEqual(s, front, back, y') ==> RowEqual(s, CopyRow(s, front, back, y), back, y')
    ensures forall a: nat :: a < |front| && !InRow(s, y, a) ==> CopyRow(s, front, back, y)[a] == front[a]
  {
    hide InRow;
  }

  function CopyRows(s: Screen, front: seq<Byte>, back: seq<Byte>, n: nat): (r: seq<Byte>)
    requires |front| == |back|
    ensures |r| == |front|
  {
    if n == 0 then front else CopyRow(s, CopyRows(s, front, back, n - 1), back, n - 1)
  }

  /** A complete copy: every visible byte equals the back buffer, every other byte is as it was. */
  lemma {:induction false} CopyRowsExact(s: Screen, front: seq<Byte>, back: seq<Byte>, n: nat)
    requires Valid(s) && |front| == |back|
    ensures forall y: nat :: y < n ==> RowEqual(s, CopyRows(s, front, back, n), back, y)
    ensures forall a: nat :: a < |front| && (forall y: nat :: y < n ==> !InRow(s, y, a)) ==>
      CopyRows(s, front, back, n)[a] == front[a]
  {
    hide RowEqual, InRow;
    if n > 0 {
      CopyRowsExact(s, front, back, n - 1);
      CopyRowEffect(s, CopyRows(s, front, back, n - 1), back, n - 1);
    }
  }

  /** The copying loop of `push_to_frame_buffer`, in place on the frame buffer. */
  method PushRows(s: Screen, front: array<Byte>, back: array<Byte>)
    requires front.Length == back.Length && front != back && BufferFits(s, front.Length)
    modifies front
    ensures front[..] == CopyRows(s, old(front[..]), back[..], s.height)
  {
    hide InRow;
    for y := 0 to s.height
      invariant front[..] == CopyRows(s, old(front[..]), back[..], y)
    {
      RowFits(s, y, front.Length);
      CopyRowTo(s, front, back, y);
    }
  }

  lemma RowFits(s: Screen, y: nat, n: nat)
    requires BufferFits(s, n) && y < s.height
    ensures y * (s.stride * s.bpp) + s.width * s.bpp <= n
  {
    MulMono(s.width, s.stride, s.bpp);
    MulMono(y + 1, s.height, s.stride * s.bpp);
  }

  method CopyRowTo(s: Screen, front: array<Byte>, back: array<Byte>, y: nat)
    requires front.Length == back.Length && front != back && y * (s.stride * s.bpp) + s.width * s.bpp <= front.Length
    modifies front
    ensures front[..] == CopyRow(s, old(front[..]), back[..], y)
  {
    var offset, n := y * (s.stride * s.bpp), s.width * s.bpp;
    for k := 0 to n
      invariant forall a :: 0 <= a < front.Length ==>
        front[a] == if offset <= a < offset + k then back[a] else old(front[a])
    {
      front[offset + k] := back[offset + k];
    }
  }

  // ------------------------------------------------------------------------ protocol

  datatype Pc =
    | Idle
    | Passed                 // saw the panic flag clear
    | HasTerm                // holds TERM
    | HasBack                // holds TERM and BACK_BUFFER_LOCK
    | Copying(row: nat)      // holds SWAP_LOCK too; rows below `row` are copied
    | Panicked               // stored the panic flag
    | Trying                 // holds PANIC_PRINT_LOCK
    | Drawing(locked: bool)  // draws; holds SWAP_LOCK if `locked`

  type Core = nat

  /** `copies[c]` counts the copies that core `c` completed after the panic flag was stored. */
  datatype Shared = Shared(
    pcs: seq<Pc>, term: Option<Core>, backLock: Option<Core>, swap: Option<Core>, panicLock: Option<Core>, flag: bool,
    front: seq<Byte>, back: seq<Byte>, copies: seq<nat>)

  datatype Action =
    | Check(c: Core)                             // load of PANICKED_STOP_PRINTING
    | LockTerm(c: Core)
    | LockBack(c: Core)
    | LockSwap(c: Core)
    | CopyOne(c: Core)                           // one row, or, after the last, release of all locks
    | WriteBack(contents: seq<Byte>)             // a writer that takes BACK_BUFFER_LOCK for its writes
    | WriteTerm(contents: seq<Byte>)             // the main output, which takes TERM
    | StorePanic(c: Core)                        // a panic at any moment; locks held then stay held
    | LockPanic(c: Core)
    | TrySwap(c: Core)                           // a successful try_lock
    | GiveUp(c: Core)                            // the time-out: draw without the lock
    | DrawFront(c: Core, contents: seq<Byte>)
    | EndPanic(c: Core)

  predicate Enabled(s: Screen, z: Shared, a: Action)
  {
    match a
    case Check(c) => c < |z.pcs| && z.pcs[c].Idle?
    case LockTerm(c) => c < |z.pcs| && z.pcs[c].Passed? && z.term.None?
    case LockBack(c) => c < |z.pcs| && z.pcs[c].HasTerm? && z.backLock.None?
    case LockSwap(c) => c < |z.pcs| && z.pcs[c].HasBack? && z.swap.None?
    case CopyOne(c) => c < |z.pcs| && z.pcs[c].Copying? && c < |z.copies|
    case WriteBack(contents) => z.backLock.None? && |contents| == |z.back|
    case WriteTerm(contents) => z.term.None? && |contents| == |z.back|
    case StorePanic(c) => c < |z.pcs| && !HoldsPanic(z.pcs[c])
    case LockPanic(c) => c < |z.pcs| && z.pcs[c].Panicked? && z.panicLock.None?
    case TrySwap(c) => c < |z.pcs| && z.pcs[c].Trying? && z.swap.None?
    case GiveUp(c) => c < |z.pcs| && z.pcs[c].Trying?
    case DrawFront(c, contents) => c < |z.pcs| && z.pcs[c].Drawing? && |contents| == |z.front|
    case EndPanic(c) => c < |z.pcs| && z.pcs[c].Drawing?
  }

  function Do(s: Screen, z: Shared, a: Action): (z': Shared)
    requires Enabled(s, z, a) && |z.front| == |z.back|
    ensures |z'.front| == |z'.back| && |z'.pcs| == |z.pcs| && |z'.copies| == |z.copies|
  {
    match a
    case Check(c) => if z.flag then z else z.(pcs := z.pcs[c := Passed])
    case LockTerm(c) => z.(pcs := z.pcs[c := HasTerm], term := Some(c))
    case LockBack(c) => z.(pcs := z.pcs[c := HasBack], backLock := Some(c))
    case LockSwap(c) => z.(pcs := z.pcs[c := Copying(0)], swap := Some(c))
    case CopyOne(c) =>
      var row := z.pcs[c].row;
      if row < s.height then z.(front := CopyRow(s, z.front, z.back, row), pcs := z.pcs[c := Copying(row + 1)])
      else z.(pcs := z.pcs[c := Idle], term := None, backLock := None, swap := None,
              copies := if z.flag then z.copies[c := z.copies[c] + 1] else z.copies)
    case WriteBack(contents) => z.(back := contents)
    case WriteTerm(contents) => z.(back := contents)
    case StorePanic(c) => z.(pcs := z.pcs[c := Panicked], flag := true)
    case LockPanic(c) => z.(pcs := z.pcs[c := Trying], panicLock := Some(c))
    case TrySwap(c) => z.(pcs := z.pcs[c := Drawing(true)], swap := Some(c))
    case GiveUp(c) => z.(pcs := z.pcs[c := Drawing(false)])
    case DrawFront(_, contents) => z.(front := contents)
    case EndPanic(c) =>
      z.(pcs := z.pcs[c := Panicked], panicLock := None, swap := if z.pcs[c].locked then None else z.swap)
  }

  predicate HoldsTerm(p: Pc) { p.HasTerm? || p.HasBack? || p.Copying? }
  predicate HoldsBack(p: Pc) { p.HasBack? || p.Copying? }
  predicate HoldsSwap(p: Pc) { p.Copying? || (p.Drawing? && p.locked) }
  predicate HoldsPanic(p: Pc) { p.Trying? || p.Drawing? }
  predicate Pushing(p: Pc) { p.Passed? || p.HasTerm? || p.HasBack? || p.Copying? }

  ghost predicate TermLock(z: Shared)
  {
    forall c: nat :: c < |z.pcs| ==> (HoldsTerm(z.pcs[c]) ==> z.term == Some(c))
  }

  ghost predicate BackLock(z: Shared)
  {
    forall c: nat :: c < |z.pcs| ==> (HoldsBack(z.pcs[c]) ==> z.backLock == Some(c))
  }

  ghost predicate SwapHeld(z: Shared)
  {
    forall c: nat :: c < |z.pcs| ==> (HoldsSwap(z.pcs[c]) ==> z.swap == Some(c))
  }

  ghost predicate SwapLock(z: Shared)
  {
    && SwapHeld(z)
    && (forall c: nat :: c < |z.pcs| && z.pcs[c].Drawing? ==> z.pcs[c].locked)
  }

  ghost predicate PanicLock(z: Shared)
  {
    forall c: nat :: c < |z.pcs| ==> (HoldsPanic(z.pcs[c]) ==> z.panicLock == Some(c))
  }

  /**
    A core whose program counter says that it holds a lock does hold it; a core
    that panicked may hold locks for ever.
   */
  ghost predicate Locks(z: Shared) { TermLock(z) && BackLock(z) && SwapLock(z) && PanicLock(z) }

  /** After the flag, a core completes at most the one copy it had already started. */
  ghost predicate Counts(z: Shared)
  {
    && |z.copies| == |z.pcs|
    && (forall c: nat :: c < |z.pcs| ==> z.copies[c] + (if Pushing(z.pcs[c]) then 1 else 0) <= 1)
    && (!z.flag ==> forall c: nat :: c < |z.pcs| ==> z.copies[c] == 0)
  }

  ghost predicate RowsCopied(s: Screen, z: Shared)
    requires |z.front| == |z.back|
  {
    forall c: nat, y: nat :: c < |z.pcs| && z.pcs[c].Copying? && y < z.pcs[c].row ==> RowEqual(s, z.front, z.back, y)
  }

  ghost predicate Inv(s: Screen, z: Shared)
  {
    |z.front| == |z.back| && Locks(z) && Counts(z) && RowsCopied(s, z)
  }

  ghost predicate Legal(s: Screen, z: Shared, run: seq<Action>)
    requires |z.front| == |z.back|
    decreases |run|
  {
    run == [] || (Enabled(s, z, run[0]) && Legal(s, Do(s, z, run[0]), run[1..]))
  }

  ghost function Run(s: Screen, z: Shared, run: seq<Action>): (z': Shared)
    requires |z.front| == |z.back| && Legal(s, z, run)
    ensures |z'.front| == |z'.back| && |z'.pcs| == |z.pcs| && |z'.copies| == |z.copies|
    decreases |run|
  {
    if run == [] then z else Run(s, Do(s, z, run[0]), run[1..])
  }

  lemma DoTermLock(s: Screen, z: Shared, a: Action)
    requires |z.front| == |z.back| && TermLock(z) && Enabled(s, z, a)
    ensures TermLock(Do(s, z, a))
  {
    hide CopyRow;
  }

  lemma DoBackLock(s: Screen, z: Shared, a: Action)
    requires |z.front| == |z.back| && BackLock(z) && Enabled(s, z, a)
    ensures BackLock(Do(s, z, a))
  {
    hide CopyRow;
  }

  lemma DoSwapLock(s: Screen, z: Shared, a: Action)
    requires |z.front| == |z.back| && SwapLock(z) && Enabled(s, z, a) && !a.GiveUp?
    ensures SwapLock(Do(s, z, a))
  {
    hide CopyRow;
  }

  lemma DoPanicLock(s: Screen, z: Shared, a: Action)
    requires |z.front| == |z.back| && PanicLock(z) && Enabled(s, z, a)
    ensures PanicLock(Do(s, z, a))
  {
    hide CopyRow;
  }

  lemma DoLocks(s: Screen, z: Shared, a: Action)
    requires |z.front| == |z.back| && Locks(z) && Enabled(s, z, a) && !a.GiveUp?
    ensures Locks(Do(s, z, a))
  {
    hide CopyRow, TermLock, BackLock, SwapLock, PanicLock, Do;
    DoTermLock(s, z, a);
    DoBackLock(s, z, a);
    DoSwapLock(s, z, a);
    DoPanicLock(s, z, a);
  }

  lemma DoCounts(s: Screen, z: Shared, a: Action)
    requires |z.front| == |z.back| && Counts(z) && Enabled(s, z, a)
    ensures Counts(Do(s, z, a))
  {
    hide CopyRow;
  }

  lemma DoRows(s: Screen, z: Shared, a: Action)
    requires Valid(s) && |z.front| == |z.back| && Locks(z) && RowsCopied(s, z) && Enabled(s, z, a) && !a.GiveUp?
    ensures RowsCopied(s, Do(s, z, a))
  {
    hide RowEqual, InRow, CopyRow;
    match a {
      case CopyOne(c) => CopyRowEffect(s, z.front, z.back, z.pcs[c].row);
      case WriteBack(_) => assert forall c: nat :: c < |z.pcs| ==> !z.pcs[c].Copying?;
      case WriteTerm(_) => assert forall c: nat :: c < |z.pcs| ==> !z.pcs[c].Copying?;
      case DrawFront(d, _) => assert forall c: nat :: c < |z.pcs| ==> !z.pcs[c].Copying?;
      case _ =>
    }
  }

  /**
    Once the flag is stored it stays, and a core that is not past the check
    never starts another copy, let alone completes one.
   */
  lemma {:induction false} NoNewCopies(s: Screen, z: Shared, run: seq<Action>, c: Core)
    requires |z.front| == |z.back| && |z.copies| == |z.pcs| && Legal(s, z, run)
    requires z.flag && c < |z.pcs| && !Pushing(z.pcs[c])
    ensures var z' := Run(s, z, run); z'.flag && !Pushing(z'.pcs[c]) && z'.copies[c] == z.copies[c]
    decreases |run|
  {
    hide CopyRow;
    if run != [] {
      NoNewCopies(s, Do(s, z, run[0]), run[1..], c);
    }
  }

  /**
    The panic and refresh protocol.  In every interleaving in which panicking
    cores get the swap lock: a core that draws is alone, no copy is under way;
    after the flag is stored no core completes more than one copy, and none
    starts or completes one that had not passed the check before; and the rows
    copied so far by a copy under way equal the back buffer, all of them when
    it ends.
   */
  lemma {:induction false} ProtocolSafe(s: Screen, z: Shared, run: seq<Action>)
    requires Valid(s) && Inv(s, z) && Legal(s, z, run) && forall k :: 0 <= k < |run| ==> !run[k].GiveUp?
    ensures var z' := Run(s, z, run);
      && Inv(s, z')
      && (forall c: nat, d: nat :: c < |z'.pcs| && d < |z'.pcs| && z'.pcs[c].Drawing? ==>
            !z'.pcs[d].Copying? && (z'.pcs[d].Drawing? ==> c == d))
      && (forall c: nat :: c < |z'.pcs| ==> z'.copies[c] <= 1)
      && (z.flag ==> forall c: nat :: c < |z.pcs| && !Pushing(z.pcs[c]) ==>
            !Pushing(z'.pcs[c]) && z'.copies[c] == z.copies[c])
      && (forall c: nat, y: nat :: c < |z'.pcs| && z'.pcs[c] == Copying(s.height) && y < s.height ==>
            RowEqual(s, z'.front, z'.back, y))
    decreases |run|
  {
    hide RowEqual, InRow, Do, Enabled;
    if run != [] {
      var a := run[0];
      assert !a.GiveUp?;
      DoLocks(s, z, a);
      DoCounts(s, z, a);
      DoRows(s, z, a);
      ProtocolSafe(s, Do(s, z, a), run[1..]);
    }
    if z.flag {
      forall c: nat | c < |z.pcs| && !Pushing(z.pcs[c]) ensures !Pushing(Run(s, z, run).pcs[c]) &&
        Run(s, z, run).copies[c] == z.copies[c] {
        NoNewCopies(s, z, run, c);
      }
    }
  }

  /** Before any push or panic: all idle, no lock held. */
  function Quiet(n: nat, front: seq<Byte>, back: seq<Byte>): (z: Shared)
  {
    Shared(seq(n, _ => Idle), None, None, None, None, false, front, back, seq(n, _ => 0))
  }

  lemma QuietInv(s: Screen, n: nat, front: seq<Byte>, back: seq<Byte>)
    requires |front| == |back|
    ensures Inv(s, Quiet(n, front, back))
  {
  }

  /** Some core draws while some core copies. */
  ghost predicate Overlap(z: Shared)
  {
    exists c: nat, d: nat :: c < |z.pcs| && d < |z.pcs| && z.pcs[c].Drawing? && z.pcs[d].Copying?
  }

  /** Giving up or not, a core that copies or draws under the lock is the one that holds it. */
  lemma {:induction false} SwapHeldAlways(s: Screen, z: Shared, run: seq<Action>)
    requires |z.front| == |z.back| && SwapHeld(z) && Legal(s, z, run)
    ensures SwapHeld(Run(s, z, run))
    decreases |run|
  {
    hide CopyRow;
    if run != [] {
      SwapHeldAlways(s, Do(s, z, run[0]), run[1..]);
    }
  }

  /**
    After every run from the quiet start, a core that gives up waiting and draws
    without the lock overlaps a copy exactly if the holder of the lock, which
    kept it waiting, is copying, and did not panic with it.
   */
  lemma GivingUpOverlapsExactly(s: Screen, n: nat, front: seq<Byte>, back: seq<Byte>, run: seq<Action>, c: Core)
    requires |front| == |back| && Legal(s, Quiet(n, front, back), run)
    requires Enabled(s, Run(s, Quiet(n, front, back), run), GiveUp(c))
    ensures var z := Run(s, Quiet(n, front, back), run);
      Overlap(Do(s, z, GiveUp(c))) <==> z.swap.Some? && z.swap.value < |z.pcs| && z.pcs[z.swap.value].Copying?
  {
    hide Run, Legal, CopyRow;
    var z := Run(s, Quiet(n, front, back), run);
    SwapHeldAlways(s, Quiet(n, front, back), run);
    var z' := Do(s, z, GiveUp(c));
    assert z'.pcs[c].Drawing?;
    if z.swap.Some? && z.swap.value < |z.pcs| && z.pcs[z.swap.value].Copying? {
      assert z'.pcs[z.swap.value].Copying?;
    }
    if Overlap(z') {
      var b: nat, d: nat :| b < |z'.pcs| && d < |z'.pcs| && z'.pcs[b].Drawing? && z'.pcs[d].Copying?;
      assert z.pcs[d].Copying?;
    }
  }

  /** Once the flag is up and no core is past the check, giving up is harmless for ever. */
  lemma GivingUpHarmless(s: Screen, z: Shared, run: seq<Action>)
    requires |z.front| == |z.back| && |z.copies| == |z.pcs| && Legal(s, z, run)
    requires z.flag && forall c: nat :: c < |z.pcs| ==> !Pushing(z.pcs[c])
    ensures !Overlap(Run(s, z, run))
  {
    hide Do, Enabled, CopyRow;
    var z' := Run(s, z, run);
    forall c: nat | c < |z.pcs| ensures !Pushing(z'.pcs[c]) {
      NoNewCopies(s, z, run, c);
    }
  }

  /** Core 0 starts to copy; core 1 panics, waits for the lock in vain and draws. */
  const COPY_STARTS: seq<Action> := [Check(0), LockTerm(0), LockBack(0), LockSwap(0)]
  const PANIC_GIVES_UP: seq<Action> := [StorePanic(1), LockPanic(1), GiveUp(1)]

  lemma PanicOverlaps(s: Screen, z: Shared)
    requires |z.front| == |z.back| && z.pcs == [Copying(0), Idle] && z.panicLock == None
    ensures Legal(s, z, PANIC_GIVES_UP) && Overlap(Run(s, z, PANIC_GIVES_UP))
  {
    hide CopyRow, Run, Legal;
    var z1 := Do(s, z, StorePanic(1));
    var z2 := Do(s, z1, LockPanic(1));
    var z3 := Do(s, z2, GiveUp(1));
    assert z3.pcs[1].Drawing? && z3.pcs[0].Copying?;
    Finished(s, z3);
    Unfold(s, z2, GiveUp(1), []);
    Unfold(s, z1, LockPanic(1), [GiveUp(1)] + []);
    Unfold(s, z, StorePanic(1), [LockPanic(1)] + ([GiveUp(1)] + []));
    assert PANIC_GIVES_UP == [StorePanic(1)] + ([LockPanic(1)] + ([GiveUp(1)] + []));
  }

  /** From the quiet start, that run ends in an overlap. */
  lemma GivingUpOverlaps(s: Screen, front: seq<Byte>, back: seq<Byte>)
    requires |front| == |back|
    ensures var z := Quiet(2, front, back);
      Legal(s, z, COPY_STARTS + PANIC_GIVES_UP) && Overlap(Run(s, z, COPY_STARTS + PANIC_GIVES_UP))
  {
    hide CopyRow, Run, Legal, Overlap;
    var z0 := Quiet(2, front, back);
    var z1 := Do(s, z0, Check(0));
    var z2 := Do(s, z1, LockTerm(0));
    var z3 := Do(s, z2, LockBack(0));
    var z4 := Do(s, z3, LockSwap(0));
    PanicOverlaps(s, z4);
    var rest1 := [LockSwap(0)] + PANIC_GIVES_UP;
    var rest2 := [LockBack(0)] + rest1;
    var rest3 := [LockTerm(0)] + rest2;
    Unfold(s, z3, LockSwap(0), PANIC_GIVES_UP);
    Unfold(s, z2, LockBack(0), rest1);
    Unfold(s, z1, LockTerm(0), rest2);
    Unfold(s, z0, Check(0), rest3);
    assert COPY_STARTS + PANIC_GIVES_UP == [Check(0)] + rest3;
  }

  lemma Finished(s: Screen, z: Shared)
    requires |z.front| == |z.back|
    ensures Legal(s, z, []) && Run(s, z, []) == z
  {
  }

  lemma Unfold(s: Screen, z: Shared, a: Action, rest: seq<Action>)
    requires |z.front| == |z.back| && Enabled(s, z, a) && Legal(s, Do(s, z, a), rest)
    ensures Legal(s, z, [a] + rest) && Run(s, z, [a] + rest) == Run(s, Do(s, z, a), rest)
  {
    assert ([a] + rest)[1..] == rest;
  }
}
