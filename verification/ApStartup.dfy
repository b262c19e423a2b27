/**
  Starting the application processors (kernel/src/smp.rs and the `setup` block
  of kernel/smp_trampoline/ap.asm).  Every AP draws an index from a shared
  counter, computes its stack pointer from words in the trampoline page, jumps
  to the kernel and reports; the boot processor waits and then withdraws the
  page.  The theorems hold for every interleaving of any number of APs.
 */
module ApStartup {
  import opened Addresses

  const PAGES_PER_CORE: nat := KERNEL_STACK_SIZE / 4096

  /** `calc_stack_stride`: the stack and one guard page. */
  const STRIDE: nat := (PAGES_PER_CORE + 1) * 4096

  /** `stack_base`: the last byte of the first stack. */
  const STACK_BASE: nat := KERNEL_AP_STACKS + STRIDE - 1

  const MAX_APS: nat := 255

  /** Where an AP is.  All but the last two are inside the trampoline page. */
  datatype Ap =
    | Parked                              // not started yet
    | Booting                             // before `lock xadd`
    | Indexed(index: nat)                 // stack pointer not computed yet
    | Stacked(index: nat, sp: nat)        // before `jmp [ENTRY_FUNCTION_ADDR]`
    | Entered(index: nat, sp: nat)        // in `ap_entry_fn`, not reported yet
    | Reported(index: nat, sp: nat)

  predicate InTrampoline(a: Ap) { a.Booting? || a.Indexed? || a.Stacked? }

  predicate HasIndex(a: Ap) { a.Indexed? || a.Stacked? || a.Entered? || a.Reported? }

  datatype Bsp = Waiting(timeOut: nat) | Withdrawn(timeOut: nat)

  datatype Smp = Smp(aps: seq<Ap>, indexCounter: nat, doneCounter: nat, bsp: Bsp)

  datatype Turn = ApTurn(k: nat) | BspTurn

  /** One step of AP `k`. */
  function ApStep(s: Smp, k: nat): (s': Smp)
    requires k < |s.aps|
  {
    match s.aps[k]
    case Parked => s.(aps := s.aps[k := Booting])
    case Booting => s.(aps := s.aps[k := Indexed(s.indexCounter)], indexCounter := s.indexCounter + 1)
    case Indexed(i) => s.(aps := s.aps[k := Stacked(i, i * STRIDE + STACK_BASE)])
    case Stacked(i, sp) => s.(aps := s.aps[k := Entered(i, sp)])
    case Entered(i, sp) => s.(aps := s.aps[k := Reported(i, sp)], doneCounter := s.doneCounter + 1)
    case Reported(_, _) => s
  }

  /** One turn of the wait loop, or the withdrawal of the page after it. */
  function BspStep(s: Smp): (s': Smp)
  {
    match s.bsp
    case Waiting(t) =>
      if s.doneCounter < |s.aps| && t > 0 then s.(bsp := Waiting(t - 1)) else s.(bsp := Withdrawn(t))
    case Withdrawn(_) => s
  }

  function Step(s: Smp, t: Turn): (s': Smp)
    requires t.ApTurn? ==> t.k < |s.aps|
  {
    if t.BspTurn? then BspStep(s) else ApStep(s, t.k)
  }

  /** Turns of the wait loop before it gives up. */
  const PATIENCE: nat := 1_000_000

  function Start(n: nat): (s: Smp) { Smp(seq(n, _ => Parked), 0, 0, Waiting(PATIENCE)) }

  predicate Legal(n: nat, run: seq<Turn>) { forall j :: 0 <= j < |run| && run[j].ApTurn? ==> run[j].k < n }

  function Run(n: nat, run: seq<Turn>): (s: Smp)
    requires Legal(n, run)
    ensures |s.aps| == n
  {
    if run == [] then Start(n)
    else
      assert Legal(n, run[..|run| - 1]);
      Step(Run(n, run[..|run| - 1]), run[|run| - 1])
  }

  // ------------------------------------------------------------------- invariant

  function Count(aps: seq<Ap>, p: Ap -> bool): (n: nat)
    ensures n <= |aps|
  {
    if aps == [] then 0 else Count(aps[..|aps| - 1], p) + (if p(aps[|aps| - 1]) then 1 else 0)
  }

  lemma {:induction false} CountUpdate(aps: seq<Ap>, k: nat, a: Ap, p: Ap -> bool)
    requires k < |aps|
    ensures Count(aps[k := a], p) == Count(aps, p) - (if p(aps[k]) then 1 else 0) + (if p(a) then 1 else 0)
  {
    var n := |aps| - 1;
    if k == n {
      assert aps[k := a][..n] == aps[..n];
    } else {
      assert aps[k := a][..n] == aps[..n][k := a];
      CountUpdate(aps[..n], k, a, p);
    }
  }

  lemma {:induction false} CountMiss(aps: seq<Ap>, k: nat, p: Ap -> bool)
    requires k < |aps| && !p(aps[k])
    ensures Count(aps, p) < |aps|
  {
    if k < |aps| - 1 {
      CountMiss(aps[..|aps| - 1], k, p);
    }
  }

  lemma {:induction false} CountAll(aps: seq<Ap>, p: Ap -> bool)
    requires forall k :: 0 <= k < |aps| ==> p(aps[k])
    ensures Count(aps, p) == |aps|
  {
    if aps != [] {
      CountAll(aps[..|aps| - 1], p);
    }
  }

  lemma {:induction false} CountNone(aps: seq<Ap>, p: Ap -> bool)
    requires forall k :: 0 <= k < |aps| ==> !p(aps[k])
    ensures Count(aps, p) == 0
  {
    if aps != [] {
      CountNone(aps[..|aps| - 1], p);
    }
  }

  function Known(): (p: Ap -> bool) { (a: Ap) => HasIndex(a) }
  function Done(): (p: Ap -> bool) { (a: Ap) => a.Reported? }

  ghost predicate Inv(s: Smp)
  {
    && s.indexCounter == Count(s.aps, Known())
    && s.doneCounter == Count(s.aps, Done())
    && (forall k :: 0 <= k < |s.aps| && HasIndex(s.aps[k]) ==> s.aps[k].index < s.indexCounter)
    && (forall j, k :: 0 <= j < k < |s.aps| && HasIndex(s.aps[j]) && HasIndex(s.aps[k]) ==>
          s.aps[j].index != s.aps[k].index)
    && (forall k :: 0 <= k < |s.aps| && HasIndex(s.aps[k]) && !s.aps[k].Indexed? ==>
          s.aps[k].sp == s.aps[k].index * STRIDE + STACK_BASE)
    && (s.bsp.Withdrawn? && s.bsp.timeOut > 0 ==> s.doneCounter == |s.aps|)
  }

  lemma ApStepCounts(s: Smp, k: nat)
    requires Inv(s) && k < |s.aps|
    ensures var s' := ApStep(s, k);
      s'.indexCounter == Count(s'.aps, Known()) && s'.doneCounter == Count(s'.aps, Done())
    ensures s.doneCounter == |s.aps| ==> s.aps[k].Reported?
  {
    var a := ApStep(s, k).aps[k];
    CountUpdate(s.aps, k, a, Known());
    CountUpdate(s.aps, k, a, Done());
    if !s.aps[k].Reported? {
      CountMiss(s.aps, k, Done());
    }
    hide Count;
  }

  lemma ApStepInv(s: Smp, k: nat)
    requires Inv(s) && k < |s.aps|
    ensures Inv(ApStep(s, k))
  {
    ApStepCounts(s, k);
    hide Count, Known, Done;
  }

  lemma {:induction false} RunInv(n: nat, run: seq<Turn>)
    requires Legal(n, run)
    ensures Inv(Run(n, run))
  {
    if run == [] {
      CountNone(Start(n).aps, Known());
      CountNone(Start(n).aps, Done());
    } else {
      var before, t := run[..|run| - 1], run[|run| - 1];
      assert Legal(n, before);
      RunInv(n, before);
      if t.ApTurn? {
        ApStepInv(Run(n, before), t.k);
      }
    }
  }

  // ---------------------------------------------------------------------- safety

  /** Stack `i`: its guard page, its lowest byte, and the byte after its last. */
  function GuardOf(i: nat): (a: nat) { KERNEL_AP_STACKS + i * STRIDE }
  function LowOf(i: nat): (a: nat) { GuardOf(i) + 4096 }
  function EndOf(i: nat): (a: nat) { GuardOf(i + 1) }

  /** Stacks and guard pages follow each other without overlap, inside the kernel half. */
  lemma StacksApart(i: nat, j: nat)
    requires i < j
    ensures EndOf(i) <= GuardOf(j) && LowOf(j) == GuardOf(j) + 4096 && EndOf(j) == LowOf(j) + KERNEL_STACK_SIZE
    ensures j < MAX_APS ==> EndOf(j) <= KERNEL_END
  {
    assert (i + 1) * STRIDE <= j * STRIDE;
  }

  /**
    AP startup is safe.  In every interleaving, the APs that drew an index drew
    different ones below the number of APs; a stack pointer is the last byte
    of its AP's own stack; and once the page was withdrawn after a wait that
    did not time out, no AP is inside it, or still has to enter it.  The
    counter that the wait loop reads tells exactly whether all have reported.
   */
  lemma StartupSafe(n: nat, run: seq<Turn>)
    requires Legal(n, run)
    ensures var s := Run(n, run);
      && (forall k :: 0 <= k < n && HasIndex(s.aps[k]) ==> s.aps[k].index < n)
      && (forall j, k :: 0 <= j < k < n && HasIndex(s.aps[j]) && HasIndex(s.aps[k]) ==>
            s.aps[j].index != s.aps[k].index)
      && (forall k :: 0 <= k < n && HasIndex(s.aps[k]) && !s.aps[k].Indexed? ==>
            LowOf(s.aps[k].index) <= s.aps[k].sp == EndOf(s.aps[k].index) - 1)
      && (s.bsp.Withdrawn? && s.bsp.timeOut > 0 ==> AllReported(s))
      && (AllReported(s) <==> s.doneCounter == n)
  {
    hide Run, LowOf, EndOf;
    RunInv(n, run);
    var s := Run(n, run);
    InvSafe(s);
    CounterTells(s);
  }

  predicate AllReported(s: Smp) { forall k :: 0 <= k < |s.aps| ==> s.aps[k].Reported? }

  lemma CounterTells(s: Smp)
    requires Inv(s)
    ensures AllReported(s) <==> s.doneCounter == |s.aps|
  {
    if AllReported(s) {
      CountAll(s.aps, Done());
    } else {
      var k :| 0 <= k < |s.aps| && !s.aps[k].Reported?;
      CountMiss(s.aps, k, Done());
    }
  }

  /**
    The wait ends at once when all have reported, whatever is left of the time,
    and goes on otherwise while time is left.
   */
  lemma WaitEndsExactly(n: nat, run: seq<Turn>)
    requires Legal(n, run) && Run(n, run).bsp.Waiting?
    ensures var s := Run(n, run);
      && (AllReported(s) ==> BspStep(s).bsp == Withdrawn(s.bsp.timeOut))
      && (!AllReported(s) && s.bsp.timeOut > 0 ==> BspStep(s).bsp == Waiting(s.bsp.timeOut - 1))
      && BspStep(s).aps == s.aps
  {
    hide Run;
    RunInv(n, run);
    CounterTells(Run(n, run));
    InvSafe(Run(n, run));
  }

  /** Some AP is in the page or still has to enter it. */
  predicate NeedsPage(s: Smp) { exists k :: 0 <= k < |s.aps| && (s.aps[k].Parked? || InTrampoline(s.aps[k])) }

  /**
    In every run, the boot processor withdraws the page from under an AP exactly
    when its patience ends while an AP needs the page; the counter that it reads
    is not full then.
   */
  lemma WithdrawsEarlyExactly(n: nat, run: seq<Turn>)
    requires Legal(n, run) && Run(n, run).bsp.Waiting?
    ensures var s := Run(n, run);
      && (BspStep(s).bsp.Withdrawn? && NeedsPage(BspStep(s)) <==> s.bsp.timeOut == 0 && NeedsPage(s))
      && (NeedsPage(s) ==> s.doneCounter < n)
  {
    hide Run;
    RunInv(n, run);
    CounterTells(Run(n, run));
    InvSafe(Run(n, run));
  }

  /** And before all APs have reported, exactly when its patience ends before the counter is full. */
  lemma GivesUpExactly(n: nat, run: seq<Turn>)
    requires Legal(n, run) && Run(n, run).bsp.Waiting?
    ensures var s := Run(n, run);
      BspStep(s).bsp.Withdrawn? && !AllReported(BspStep(s)) <==> s.bsp.timeOut == 0 && s.doneCounter < n
  {
    hide Run;
    RunInv(n, run);
    CounterTells(Run(n, run));
    InvSafe(Run(n, run));
  }

  lemma InvSafe(s: Smp)
    requires Inv(s)
    ensures forall k :: 0 <= k < |s.aps| && HasIndex(s.aps[k]) && !s.aps[k].Indexed? ==>
      LowOf(s.aps[k].index) <= s.aps[k].sp == EndOf(s.aps[k].index) - 1
    ensures s.indexCounter <= |s.aps| && s.doneCounter <= |s.aps|
    ensures s.bsp.Withdrawn? && s.bsp.timeOut > 0 ==> AllReported(s)
  {
    forall k | 0 <= k < |s.aps| && s.bsp.Withdrawn? && s.bsp.timeOut > 0 ensures s.aps[k].Reported? {
      if !s.aps[k].Reported? {
        CountMiss(s.aps, k, Done());
      }
    }
    hide Count;
    forall k | 0 <= k < |s.aps| && HasIndex(s.aps[k]) && !s.aps[k].Indexed?
      ensures LowOf(s.aps[k].index) <= s.aps[k].sp == EndOf(s.aps[k].index) - 1
    {
      var i := s.aps[k].index;
      assert (i + 1) * STRIDE == i * STRIDE + STRIDE;
    }
  }

  /** One AP that enters the page and stays there while the boot processor takes `k` turns. */
  function SlowRun(k: nat): (run: seq<Turn>) { [ApTurn(0)] + seq(k, _ => BspTurn) }

  lemma {:induction false} WaitsOn(k: nat)
    requires k <= PATIENCE
    ensures Legal(1, SlowRun(k)) && Run(1, SlowRun(k)) == Smp([Booting], 0, 0, Waiting(PATIENCE - k))
  {
    hide PATIENCE;
    if k == 0 {
      assert SlowRun(0) == [ApTurn(0)] && [ApTurn(0)][..0] == [];
      assert Run(1, []) == Start(1);
    } else {
      WaitsOn(k - 1);
      assert SlowRun(k)[..k] == SlowRun(k - 1);
    }
  }

  /** The run in which the wait times out with the AP still in the page. */
  lemma TimeOutWithdrawsEarly()
    ensures var run := SlowRun(PATIENCE + 1);
      Legal(1, run) && Run(1, run).bsp == Withdrawn(0) && InTrampoline(Run(1, run).aps[0])
  {
    hide PATIENCE;
    WaitsOn(PATIENCE);
    assert SlowRun(PATIENCE + 1)[..PATIENCE + 1] == SlowRun(PATIENCE);
  }
}
