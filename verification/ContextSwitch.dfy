/**
  Entering a user program and coming back (`switch_stack_and_execute`,
  `save_instruction_pointer` and `abort` in kernel/src/loader.rs), as a machine
  with sixteen registers and a word-addressed memory.  Every instruction
  occupies one code address.  The user program itself is any computation that
  ends by returning or by calling `abort`.
 */
module ContextSwitch {
  import opened Words
  import opened Addresses

  datatype Reg = Rax | Rbx | Rcx | Rdx | Rdi | Rsi | Rbp | Rsp | R8 | R9 | R10 | R11 | R12 | R13 | R14 | R15

  datatype Instr =
    | Push(r: Reg)
    | Pop(r: Reg)
    | Mov(dst: Reg, src: Reg)
    | MovFrom(dst: Reg, addr: Reg)     // mov dst, [addr]
    | MovTo(addr: Reg, src: Reg)       // mov [addr], src
    | CallTo(target: nat)
    | CallReg(r: Reg)
    | Ret
    | JmpMem(addr: Reg)                // jmp [addr]

  datatype Regs = Regs(
    rax: nat, rbx: nat, rcx: nat, rdx: nat, rdi: nat, rsi: nat, rbp: nat, rsp: nat,
    r8: nat, r9: nat, r10: nat, r11: nat, r12: nat, r13: nat, r14: nat, r15: nat)
  {
    function Get(r: Reg): (v: nat)
    {
      match r
      case Rax => rax
      case Rbx => rbx
      case Rcx => rcx
      case Rdx => rdx
      case Rdi => rdi
      case Rsi => rsi
      case Rbp => rbp
      case Rsp => rsp
      case R8 => r8
      case R9 => r9
      case R10 => r10
      case R11 => r11
      case R12 => r12
      case R13 => r13
      case R14 => r14
      case R15 => r15
    }

    function Set(r: Reg, v: nat): (g: Regs)
    {
      match r
      case Rax => this.(rax := v)
      case Rbx => this.(rbx := v)
      case Rcx => this.(rcx := v)
      case Rdx => this.(rdx := v)
      case Rdi => this.(rdi := v)
      case Rsi => this.(rsi := v)
      case Rbp => this.(rbp := v)
      case Rsp => this.(rsp := v)
      case R8 => this.(r8 := v)
      case R9 => this.(r9 := v)
      case R10 => this.(r10 := v)
      case R11 => this.(r11 := v)
      case R12 => this.(r12 := v)
      case R13 => this.(r13 := v)
      case R14 => this.(r14 := v)
      case R15 => this.(r15 := v)
    }
  }

  datatype Cpu = Cpu(regs: Regs, mem: map<nat, nat>, rip: nat) {
    function Get(r: Reg): (v: nat) { regs.Get(r) }
    function Set(r: Reg, v: nat): (c: Cpu) { this.(regs := regs.Set(r, v)) }
    function Read(a: nat): (v: nat) { if a in mem then mem[a] else 0 }
    function Write(a: nat, v: nat): (c: Cpu) { this.(mem := mem[a := v]) }
    function To(a: nat): (c: Cpu) { this.(rip := a) }
  }

  function Below(a: nat): (b: nat) { (a + TWO64 - 8) % TWO64 }
  function Above(a: nat): (b: nat) { (a + 8) % TWO64 }

  function Step(c: Cpu, i: Instr): (c': Cpu)
  {
    match i
    case Push(r) => c.Write(Below(c.Get(Rsp)), c.Get(r)).Set(Rsp, Below(c.Get(Rsp))).To(c.rip + 1)
    case Pop(r) => c.Set(Rsp, Above(c.Get(Rsp))).Set(r, c.Read(c.Get(Rsp))).To(c.rip + 1)
    case Mov(d, s) => c.Set(d, c.Get(s)).To(c.rip + 1)
    case MovFrom(d, a) => c.Set(d, c.Read(c.Get(a))).To(c.rip + 1)
    case MovTo(a, s) => c.Write(c.Get(a), c.Get(s)).To(c.rip + 1)
    case CallTo(t) => c.Write(Below(c.Get(Rsp)), c.rip + 1).Set(Rsp, Below(c.Get(Rsp))).To(t)
    case CallReg(r) => c.Write(Below(c.Get(Rsp)), c.rip + 1).Set(Rsp, Below(c.Get(Rsp))).To(c.Get(r))
    case Ret => c.Set(Rsp, Above(c.Get(Rsp))).To(c.Read(c.Get(Rsp)))
    case JmpMem(a) => c.To(c.Read(c.Get(a)))
  }

  // -------------------------------------------------------------------------- code

  /** Where the three pieces of code are loaded. */
  datatype Layout = Layout(switchAt: nat, saveAt: nat, abortAt: nat)

  /** The asm block of `switch_stack_and_execute`. */
  function SwitchCode(l: Layout): (code: seq<Instr>)
    ensures |code| == 18
  {
    [Push(Rbx), Push(Rbp), Push(R14), Push(R15),
     MovTo(R8, Rsp), Mov(Rsp, R9), Mov(Rbp, Rsp), Mov(Rdi, R10), Mov(Rsi, R11), Mov(Rdx, R8), Mov(Rcx, R12),
     CallTo(l.saveAt),
     Mov(R13, Rax), MovFrom(Rsp, Rdx), Pop(R15), Pop(R14), Pop(Rbp), Pop(Rbx)]
  }

  /** `save_instruction_pointer`. */
  function SaveCode(): (code: seq<Instr>)
    ensures |code| == 7
  {
    [MovFrom(Rax, Rsp), MovTo(Rdi, Rax), Mov(R15, Rdx), Mov(Rdi, Rcx), CallReg(Rsi), Mov(Rdx, R15), Ret]
  }

  /** The asm of `abort`. */
  function AbortCode(): (code: seq<Instr>)
    ensures |code| == 1
  {
    [JmpMem(R8)]
  }

  predicate Apart(l: Layout)
  {
    && (l.switchAt + 18 < l.saveAt || l.saveAt + 7 < l.switchAt)
    && (l.switchAt + 18 < l.abortAt || l.abortAt + 1 < l.switchAt)
    && (l.saveAt + 7 < l.abortAt || l.abortAt + 1 < l.saveAt)
  }

  function Fetch(l: Layout, rip: nat): (i: Instr)
  {
    if l.switchAt <= rip < l.switchAt + 18 then SwitchCode(l)[rip - l.switchAt]
    else if l.saveAt <= rip < l.saveAt + 7 then SaveCode()[rip - l.saveAt]
    else if l.abortAt <= rip < l.abortAt + 1 then AbortCode()[rip - l.abortAt]
    else Ret
  }

  /** `n` instructions of kernel code. */
  function Run(l: Layout, c: Cpu, n: nat): (c': Cpu)
    decreases n
  {
    if n == 0 then c else Run(l, Step(c, Fetch(l, c.rip)), n - 1)
  }

  lemma {:induction false} RunAdd(l: Layout, c: Cpu, m: nat, n: nat)
    ensures Run(l, c, m + n) == Run(l, Run(l, c, m), n)
    decreases m
  {
    hide Step, Fetch;
    if m > 0 {
      RunAdd(l, Step(c, Fetch(l, c.rip)), m - 1, n);
    }
  }

  // ----------------------------------------------------------------- the two halves

  /** Word `a` is none of the four words that the block pushes below `rsp`. */
  predicate Away(rsp: nat, a: nat)
  {
    a != Below(rsp) && a != Below(Below(rsp)) && a != Below(Below(Below(rsp))) && a != Below(Below(Below(Below(rsp))))
  }

  /** The operands of the block, and that the words they name are different words. */
  predicate Ready(l: Layout, c: Cpu)
  {
    var rsp, n, savedSp, abortPtr := c.regs.rsp, c.regs.r9, c.regs.r8, c.regs.r10;
    && Apart(l) && c.rip == l.switchAt && rsp < TWO64 && n < TWO64
    && Away(rsp, savedSp) && Away(rsp, abortPtr) && Away(rsp, Below(n)) && Away(rsp, Below(Below(n)))
    && savedSp != abortPtr
    && savedSp != Below(n) && savedSp != Below(Below(n))
    && abortPtr != Below(n) && abortPtr != Below(Below(n))
  }

  /** The kernel's registers, its stack pointer and the way back are in memory. */
  predicate FrameSaved(l: Layout, c: Cpu, e: Cpu)
  {
    var rsp := c.regs.rsp;
    && e.Read(Below(rsp)) == c.regs.rbx
    && e.Read(Below(Below(rsp))) == c.regs.rbp
    && e.Read(Below(Below(Below(rsp)))) == c.regs.r14
    && e.Read(Below(Below(Below(Below(rsp))))) == c.regs.r15
    && e.Read(c.regs.r8) == Below(Below(Below(Below(rsp))))
    && e.Read(c.regs.r10) == l.switchAt + 12
  }

  /** The state in which the user program starts: on the user stack, its argument in rdi, its return address on top. */
  predicate Entered(l: Layout, c: Cpu, e: Cpu)
  {
    && FrameSaved(l, c, e)
    && e.rip == c.regs.r11 && e.regs.rdi == c.regs.r12 && e.regs.rbp == c.regs.r9
    && e.regs.rsp == Below(Below(c.regs.r9)) && e.regs.r15 == c.regs.r8 && e.regs.r12 == c.regs.r12
    && e.Read(Below(c.regs.r9)) == l.switchAt + 12 && e.Read(Below(Below(c.regs.r9))) == l.saveAt + 5
  }

  lemma BelowsDiffer(a: nat)
    requires a < TWO64
    ensures var b := Below(a); var d := Below(b); var e := Below(d);
      a != b && a != d && a != e && b != d && b != e && d != e
      && b != Below(e) && d != Below(e) && e != Below(e) && a != Below(e)
    ensures Above(Below(a)) == a && Below(a) < TWO64
  {
  }

  // ------------------------------------------------------ one instruction, observed

  function RipAfter(c: Cpu, i: Instr): (a: nat)
  {
    match i
    case CallTo(t) => t
    case CallReg(r) => c.Get(r)
    case Ret => c.Read(c.Get(Rsp))
    case JmpMem(a) => c.Read(c.Get(a))
    case _ => c.rip + 1
  }

  lemma StepIs(c: Cpu, i: Instr)
    ensures Step(c, i).rip == RipAfter(c, i)
  {
    hide Below, Above;
  }

  predicate Straight(i: Instr) { !i.CallTo? && !i.CallReg? && !i.Ret? && !i.JmpMem? }

  lemma RunFour(l: Layout, c: Cpu, i1: Instr, i2: Instr, i3: Instr, i4: Instr)
    requires Fetch(l, c.rip) == i1 && Fetch(l, c.rip + 1) == i2 && Fetch(l, c.rip + 2) == i3
    requires Fetch(l, c.rip + 3) == i4
    requires Straight(i1) && Straight(i2) && Straight(i3)
    ensures Run(l, c, 4) == Step(Step(Step(Step(c, i1), i2), i3), i4)
  {
    hide Step, Fetch;
    var c1 := Step(c, i1);
    var c2 := Step(c1, i2);
    var c3 := Step(c2, i3);
    StepIs(c, i1);
    StepIs(c1, i2);
    StepIs(c2, i3);
    assert Run(l, c3, 1) == Step(c3, i4);
    assert Run(l, c2, 2) == Run(l, c3, 1);
    assert Run(l, c1, 3) == Run(l, c2, 2);
  }

  lemma RunTwo(l: Layout, c: Cpu, i1: Instr, i2: Instr)
    requires Fetch(l, c.rip) == i1 && Fetch(l, c.rip + 1) == i2 && Straight(i1)
    ensures Run(l, c, 2) == Step(Step(c, i1), i2)
  {
    hide Step, Fetch;
    StepIs(c, i1);
    assert Run(l, Step(c, i1), 1) == Step(Step(c, i1), i2);
  }

  lemma RunOne(l: Layout, c: Cpu)
    ensures Run(l, c, 1) == Step(c, Fetch(l, c.rip))
  {
    hide Step, Fetch;
  }

  /** The code as it is fetched. */
  lemma Fetched(l: Layout)
    requires Apart(l)
    ensures forall k: nat :: k < 18 ==> Fetch(l, l.switchAt + k) == SwitchCode(l)[k]
    ensures forall k: nat :: k < 7 ==> Fetch(l, l.saveAt + k) == SaveCode()[k]
    ensures Fetch(l, l.abortAt) == JmpMem(R8)
  {
    hide SwitchCode, SaveCode;
  }

  // -------------------------------------------------------------------- going in

  /** The kernel's four registers lie below `c`'s stack pointer. */
  predicate Pushed(c: Cpu, e: Cpu)
  {
    var rsp := c.regs.rsp;
    && e.Read(Below(rsp)) == c.regs.rbx
    && e.Read(Below(Below(rsp))) == c.regs.rbp
    && e.Read(Below(Below(Below(rsp)))) == c.regs.r14
    && e.Read(Below(Below(Below(Below(rsp))))) == c.regs.r15
  }

  lemma PushFourRuns(l: Layout, c: Cpu)
    requires Apart(l) && c.rip == l.switchAt
    ensures var b1 := Below(c.regs.rsp); var b2 := Below(b1); var b3 := Below(b2); var b4 := Below(b3);
      Run(l, c, 4) ==
        Cpu(c.regs.(rsp := b4), c.mem[b1 := c.regs.rbx][b2 := c.regs.rbp][b3 := c.regs.r14][b4 := c.regs.r15],
          l.switchAt + 4)
  {
    hide Run, Below;
    var b1 := Below(c.regs.rsp);
    var b2 := Below(b1);
    var b3 := Below(b2);
    var b4 := Below(b3);
    assert Step(Step(Step(Step(c, Push(Rbx)), Push(Rbp)), Push(R14)), Push(R15)) ==
      Cpu(c.regs.(rsp := b4), c.mem[b1 := c.regs.rbx][b2 := c.regs.rbp][b3 := c.regs.r14][b4 := c.regs.r15],
        l.switchAt + 4) by {
      hide Fetch, SwitchCode, SaveCode;
    }
    hide Step;
    Fetched(l);
    RunFour(l, c, Push(Rbx), Push(Rbp), Push(R14), Push(R15));
  }

  lemma PushFour(l: Layout, c: Cpu)
    requires Apart(l) && c.rip == l.switchAt && c.regs.rsp < TWO64
    ensures var p := Run(l, c, 4);
      p.rip == l.switchAt + 4 && p.regs == c.regs.(rsp := Below(Below(Below(Below(c.regs.rsp))))) && Pushed(c, p)
  {
    BelowsDiffer(c.regs.rsp);
    PushFourRuns(l, c);
    hide Below, Run;
  }

  lemma SaveStackRuns(l: Layout, c: Cpu)
    requires Apart(l) && c.rip == l.switchAt + 4
    ensures Run(l, c, 4) ==
      Cpu(c.regs.(rsp := c.regs.r9, rbp := c.regs.r9, rdi := c.regs.r10), c.mem[c.regs.r8 := c.regs.rsp],
        l.switchAt + 8)
  {
    hide Run, Below;
    assert Step(Step(Step(Step(c, MovTo(R8, Rsp)), Mov(Rsp, R9)), Mov(Rbp, Rsp)), Mov(Rdi, R10)) ==
      Cpu(c.regs.(rsp := c.regs.r9, rbp := c.regs.r9, rdi := c.regs.r10), c.mem[c.regs.r8 := c.regs.rsp],
        l.switchAt + 8) by {
      hide Fetch, SwitchCode, SaveCode;
    }
    hide Step;
    Fetched(l);
    RunFour(l, c, MovTo(R8, Rsp), Mov(Rsp, R9), Mov(Rbp, Rsp), Mov(Rdi, R10));
  }

  lemma SaveStack(l: Layout, c: Cpu, p: Cpu)
    requires Ready(l, c) && p.rip == l.switchAt + 4 && Pushed(c, p)
    requires p.regs == c.regs.(rsp := Below(Below(Below(Below(c.regs.rsp)))))
    ensures var q := Run(l, p, 4);
      && q.rip == l.switchAt + 8 && Pushed(c, q)
      && q.Read(c.regs.r8) == Below(Below(Below(Below(c.regs.rsp))))
      && q.regs.rsp == c.regs.r9 && q.regs.rbp == c.regs.r9 && q.regs.rdi == c.regs.r10
      && q.regs.r8 == c.regs.r8 && q.regs.r11 == c.regs.r11 && q.regs.r12 == c.regs.r12
  {
    SaveStackRuns(l, p);
    hide Below, Above, Run, Step, Fetch, SwitchCode, SaveCode;
  }

  lemma CallSaveRuns(l: Layout, c: Cpu)
    requires Apart(l) && c.rip == l.switchAt + 8
    ensures Run(l, c, 4) ==
      Cpu(c.regs.(rsi := c.regs.r11, rdx := c.regs.r8, rcx := c.regs.r12, rsp := Below(c.regs.rsp)),
                          c.mem[Below(c.regs.rsp) := l.switchAt + 12], l.saveAt)
  {
    hide Run, Below;
    assert Step(Step(Step(Step(c, Mov(Rsi, R11)), Mov(Rdx, R8)), Mov(Rcx, R12)), CallTo(l.saveAt)) ==
      Cpu(c.regs.(rsi := c.regs.r11, rdx := c.regs.r8, rcx := c.regs.r12, rsp := Below(c.regs.rsp)),
          c.mem[Below(c.regs.rsp) := l.switchAt + 12], l.saveAt) by {
      hide Fetch, SwitchCode, SaveCode;
    }
    hide Step;
    Fetched(l);
    RunFour(l, c, Mov(Rsi, R11), Mov(Rdx, R8), Mov(Rcx, R12), CallTo(l.saveAt));
  }

  lemma CallSave(l: Layout, c: Cpu, q: Cpu)
    requires Ready(l, c) && q.rip == l.switchAt + 8 && Pushed(c, q)
    requires q.Read(c.regs.r8) == Below(Below(Below(Below(c.regs.rsp))))
    requires q.regs.rsp == c.regs.r9 && q.regs.rbp == c.regs.r9 && q.regs.rdi == c.regs.r10
    requires q.regs.r8 == c.regs.r8 && q.regs.r11 == c.regs.r11 && q.regs.r12 == c.regs.r12
    ensures var s := Run(l, q, 4);
      && s.rip == l.saveAt && Pushed(c, s)
      && s.Read(c.regs.r8) == Below(Below(Below(Below(c.regs.rsp)))) && s.Read(Below(c.regs.r9)) == l.switchAt + 12
      && s.regs.rsp == Below(c.regs.r9) && s.regs.rbp == c.regs.r9 && s.regs.rdi == c.regs.r10 &&
          s.regs.rsi == c.regs.r11
      && s.regs.rdx == c.regs.r8 && s.regs.rcx == c.regs.r12 && s.regs.r12 == c.regs.r12
  {
    CallSaveRuns(l, q);
    hide Below, Above, Run, Step, Fetch, SwitchCode, SaveCode;
  }

  lemma SaveReturnRuns(l: Layout, c: Cpu)
    requires Apart(l) && c.rip == l.saveAt
    ensures Run(l, c, 4) == Cpu(c.regs.(rax := c.Read(c.regs.rsp), r15 := c.regs.rdx, rdi := c.regs.rcx),
                          c.mem[c.regs.rdi := c.Read(c.regs.rsp)], l.saveAt + 4)
  {
    hide Run, Below;
    assert Step(Step(Step(Step(c, MovFrom(Rax, Rsp)), MovTo(Rdi, Rax)), Mov(R15, Rdx)), Mov(Rdi, Rcx)) ==
      Cpu(c.regs.(rax := c.Read(c.regs.rsp), r15 := c.regs.rdx, rdi := c.regs.rcx),
          c.mem[c.regs.rdi := c.Read(c.regs.rsp)], l.saveAt + 4) by {
      hide Fetch, SwitchCode, SaveCode;
    }
    hide Step;
    Fetched(l);
    RunFour(l, c, MovFrom(Rax, Rsp), MovTo(Rdi, Rax), Mov(R15, Rdx), Mov(Rdi, Rcx));
  }

  lemma SaveReturn(l: Layout, c: Cpu, s: Cpu)
    requires Ready(l, c) && s.rip == l.saveAt && Pushed(c, s)
    requires s.Read(c.regs.r8) == Below(Below(Below(Below(c.regs.rsp)))) && s.Read(Below(c.regs.r9)) == l.switchAt + 12
    requires s.regs.rsp == Below(c.regs.r9) && s.regs.rbp == c.regs.r9 && s.regs.rdi == c.regs.r10
    requires s.regs.rsi == c.regs.r11
    requires s.regs.rdx == c.regs.r8 && s.regs.rcx == c.regs.r12 && s.regs.r12 == c.regs.r12
    ensures var t := Run(l, s, 4);
      && t.rip == l.saveAt + 4 && FrameSaved(l, c, t) && t.Read(Below(c.regs.r9)) == l.switchAt + 12
      && t.regs.rsp == Below(c.regs.r9) && t.regs.rbp == c.regs.r9 && t.regs.rdi == c.regs.r12 &&
          t.regs.rsi == c.regs.r11
      && t.regs.r15 == c.regs.r8 && t.regs.r12 == c.regs.r12
  {
    SaveReturnRuns(l, s);
    hide Below, Above, Run, Step, Fetch, SwitchCode, SaveCode;
  }

  lemma CallEntry(l: Layout, c: Cpu, t: Cpu)
    requires Ready(l, c) && t.rip == l.saveAt + 4 && FrameSaved(l, c, t) && t.Read(Below(c.regs.r9)) == l.switchAt + 12
    requires t.regs.rsp == Below(c.regs.r9) && t.regs.rbp == c.regs.r9 && t.regs.rdi == c.regs.r12
    requires t.regs.rsi == c.regs.r11
    requires t.regs.r15 == c.regs.r8 && t.regs.r12 == c.regs.r12
    ensures Entered(l, c, Run(l, t, 1))
  {
    Fetched(l);
    RunOne(l, t);
    BelowsDiffer(c.regs.r9);
    hide Below, Above, Step, Cpu.Get, Cpu.Read, Run, Fetch, SwitchCode;
    StepIs(t, CallReg(Rsi));
  }

  /** Seventeen instructions lead from the start of the block into the user program. */
  lemma GoesIn(l: Layout, c: Cpu)
    requires Ready(l, c)
    ensures Entered(l, c, Run(l, c, 17))
  {
    hide Below, Cpu.Get, Cpu.Read, Run, Away;
    var p := Run(l, c, 4);
    var q := Run(l, p, 4);
    var s := Run(l, q, 4);
    var t := Run(l, s, 4);
    PushFour(l, c);
    SaveStack(l, c, p);
    CallSave(l, c, q);
    SaveReturn(l, c, s);
    CallEntry(l, c, t);
    RunAdd(l, c, 4, 13);
    RunAdd(l, p, 4, 9);
    RunAdd(l, q, 4, 5);
    RunAdd(l, s, 4, 1);
  }

  // ------------------------------------------------------------------- coming back

  /**
    The user program returned under the System V AMD64 calling convention:
    return address popped, callee-saved registers as it found them, its
    caller's stack word and the kernel's saved frame not written.
   */
  predicate Returns(l: Layout, c: Cpu, e: Cpu, u: Cpu)
  {
    && u.rip == e.Read(e.regs.rsp) && u.regs.rsp == Above(e.regs.rsp)
    && u.regs.rbx == e.regs.rbx && u.regs.rbp == e.regs.rbp
    && u.regs.r12 == e.regs.r12 && u.regs.r13 == e.regs.r13 && u.regs.r14 == e.regs.r14 && u.regs.r15 == e.regs.r15
    && u.Read(Below(c.regs.r9)) == e.Read(Below(c.regs.r9))
    && FrameSaved(l, c, u)
  }

  /** `running_application_data` of a core: the application's table, and where its two saved words are. */
  datatype Running = NoApplication | Application(table: nat, savedSpAt: nat, abortAddrAt: nat)

  /**
    `abort`, called at any depth: it finds the two words through the core's
    running application, loads the registers of its asm block and enters it.
    None is the panic of `expect`.
   */
  function AbortEntry(l: Layout, u: Cpu, code: nat, running: Running): (v: Option<Cpu>)
  {
    if running.NoApplication? then None
    else Some(Cpu(u.regs.(rax := code, rdx := running.savedSpAt, r8 := running.abortAddrAt), u.mem, l.abortAt))
  }

  /**
    The kernel goes on after the block, as it was, with the exit code in r13;
    rax and rdx, which the block does not declare, hold the exit code and r8.
   */
  predicate Resumed(l: Layout, c: Cpu, code: nat, f: Cpu)
  {
    && f.rip == l.switchAt + 18 && f.regs.r13 == code
    && f.regs.rsp == c.regs.rsp && f.regs.rbx == c.regs.rbx && f.regs.rbp == c.regs.rbp
    && f.regs.r14 == c.regs.r14 && f.regs.r15 == c.regs.r15
    && f.regs.rax == code && f.regs.rdx == c.regs.r8
  }

  lemma RestoreRuns(l: Layout, c: Cpu)
    requires Apart(l) && c.rip == l.switchAt + 12
    ensures var sp := c.Read(c.regs.rdx);
      Run(l, c, 4) ==
        Cpu(c.regs.(r13 := c.regs.rax, rsp := Above(Above(sp)), r15 := c.Read(sp), r14 := c.Read(Above(sp))), c.mem,
          l.switchAt + 16)
  {
    hide Run, Above, Below;
    var sp := c.Read(c.regs.rdx);
    assert Step(Step(Step(Step(c, Mov(R13, Rax)), MovFrom(Rsp, Rdx)), Pop(R15)), Pop(R14)) ==
      Cpu(c.regs.(r13 := c.regs.rax, rsp := Above(Above(sp)), r15 := c.Read(sp), r14 := c.Read(Above(sp))), c.mem,
        l.switchAt + 16) by {
      hide Fetch, SwitchCode, SaveCode;
    }
    hide Step;
    Fetched(l);
    RunFour(l, c, Mov(R13, Rax), MovFrom(Rsp, Rdx), Pop(R15), Pop(R14));
  }

  lemma RestoreRest(l: Layout, c: Cpu)
    requires Apart(l) && c.rip == l.switchAt + 16
    ensures var sp := c.regs.rsp;
      Run(l, c, 2) ==
        Cpu(c.regs.(rsp := Above(Above(sp)), rbp := c.Read(sp), rbx := c.Read(Above(sp))), c.mem, l.switchAt + 18)
  {
    hide Run, Above, Below;
    var sp := c.regs.rsp;
    assert Step(Step(c, Pop(Rbp)), Pop(Rbx)) ==
      Cpu(c.regs.(rsp := Above(Above(sp)), rbp := c.Read(sp), rbx := c.Read(Above(sp))), c.mem, l.switchAt + 18) by {
      hide Fetch, SwitchCode, SaveCode;
    }
    hide Step;
    Fetched(l);
    RunTwo(l, c, Pop(Rbp), Pop(Rbx));
  }

  lemma Unwinds(rsp: nat)
    requires rsp < TWO64
    ensures Above(Below(rsp)) == rsp && Above(Below(Below(rsp))) == Below(rsp)
    ensures Above(Below(Below(Below(rsp)))) == Below(Below(rsp))
    ensures Above(Below(Below(Below(Below(rsp))))) == Below(Below(Below(rsp)))
  {
    UnwindsOne(rsp);
    UnwindsOne(Below(rsp));
    UnwindsOne(Below(Below(rsp)));
    UnwindsOne(Below(Below(Below(rsp))));
    hide Above, Below;
  }

  lemma UnwindsOne(rsp: nat)
    requires rsp < TWO64
    ensures Below(rsp) < TWO64 && Above(Below(rsp)) == rsp
  {
  }

  lemma RestoreTwo(l: Layout, c: Cpu, v: Cpu)
    requires Apart(l) && c.regs.rsp < TWO64 && v.rip == l.switchAt + 12 && v.regs.rdx == c.regs.r8
    requires FrameSaved(l, c, v)
    ensures var w := Run(l, v, 4); var rsp := c.regs.rsp;
      && w.rip == l.switchAt + 16 && w.mem == v.mem && w.regs.rsp == Below(Below(rsp))
      && w.regs.r13 == v.regs.rax && w.regs.r15 == c.regs.r15 && w.regs.r14 == c.regs.r14 && w.regs.r12 == v.regs.r12
      && w.regs.rax == v.regs.rax && w.regs.rdx == v.regs.rdx
  {
    Unwinds(c.regs.rsp);
    hide Run, Above, Below;
    RestoreRuns(l, v);
  }

  /** The six instructions after the call undo the six before it. */
  lemma ComesOut(l: Layout, c: Cpu, v: Cpu)
    requires Apart(l) && c.regs.rsp < TWO64 && v.rip == l.switchAt + 12 && v.regs.rdx == c.regs.r8
    requires FrameSaved(l, c, v)
    ensures Resumed(l, c, v.regs.rax, Run(l, v, 6)) && Run(l, v, 6).regs.r12 == v.regs.r12
  {
    RestoreTwo(l, c, v);
    Unwinds(c.regs.rsp);
    hide Run, Above, Below;
    RunAdd(l, v, 4, 2);
    RestoreRest(l, Run(l, v, 4));
  }

  lemma SameFrame(l: Layout, c: Cpu, u: Cpu, v: Cpu)
    requires FrameSaved(l, c, u) && v.mem == u.mem
    ensures FrameSaved(l, c, v)
  {
    hide Below;
  }

  /** Entering left the two return addresses on the user stack and the saved stack pointer's address in r15. */
  lemma WayBack(l: Layout, c: Cpu, u: Cpu)
    requires Ready(l, c) && Returns(l, c, Run(l, c, 17), u)
    ensures Entered(l, c, Run(l, c, 17))
    ensures u.rip == l.saveAt + 5 && u.Read(u.regs.rsp) == l.switchAt + 12 && u.regs.r15 == c.regs.r8
    ensures u.regs.r12 == c.regs.r12
  {
    GoesIn(l, c);
    Unwinds(c.regs.r9);
    hide Run, Above, Below, Away, FrameSaved;
  }

  /**
    The round trip through `return`: the kernel resumes with its registers and
    stack, the exit code is what the program left in rax, and r12, the fourth
    operand of the block, is unchanged.
   */
  lemma ReturnRoundTrip(l: Layout, c: Cpu, u: Cpu)
    requires Ready(l, c) && Returns(l, c, Run(l, c, 17), u)
    ensures Entered(l, c, Run(l, c, 17))
    ensures Resumed(l, c, u.regs.rax, Run(l, u, 8)) && Run(l, u, 8).regs.r12 == c.regs.r12
  {
    WayBack(l, c, u);
    ReturnRuns(l, u);
    hide Run, Above, Below, Away, FrameSaved, Entered;
    var v := Run(l, u, 2);
    SameFrame(l, c, u, v);
    RunAdd(l, u, 2, 6);
    ComesOut(l, c, v);
  }

  lemma ReturnRuns(l: Layout, u: Cpu)
    requires Apart(l) && u.rip == l.saveAt + 5
    ensures Run(l, u, 2) == Cpu(u.regs.(rdx := u.regs.r15, rsp := Above(u.regs.rsp)), u.mem, u.Read(u.regs.rsp))
  {
    hide Run, Above, Below;
    assert Step(Step(u, Mov(Rdx, R15)), Ret) ==
      Cpu(u.regs.(rdx := u.regs.r15, rsp := Above(u.regs.rsp)), u.mem, u.Read(u.regs.rsp)) by {
      hide Fetch, SwitchCode, SaveCode;
    }
    hide Step;
    Fetched(l);
    RunTwo(l, u, Mov(Rdx, R15), Ret);
  }

  /**
    The round trip through `abort`, from any depth of the user program: nothing
    is assumed of its stack and registers, only that it did not write the saved
    frame.  Everything is as after a return, except that r12 is whatever the
    program left in it.
   */
  lemma AbortRoundTrip(l: Layout, c: Cpu, code: nat, u: Cpu, table: nat)
    requires Ready(l, c) && FrameSaved(l, c, u)
    ensures var v := AbortEntry(l, u, code, Application(table, c.regs.r8, c.regs.r10));
      v.Some? && Resumed(l, c, code, Run(l, v.value, 7)) && Run(l, v.value, 7).regs.r12 == u.regs.r12
  {
    var entry := AbortEntry(l, u, code, Application(table, c.regs.r8, c.regs.r10)).value;
    AbortRuns(l, entry);
    SameFrame(l, c, u, entry);
    hide Run, Above, Below, Away;
    var v := Run(l, entry, 1);
    assert v.rip == l.switchAt + 12;
    SameFrame(l, c, u, v);
    hide FrameSaved;
    RunAdd(l, entry, 1, 6);
    ComesOut(l, c, v);
  }

  lemma AbortRuns(l: Layout, u: Cpu)
    requires Apart(l) && u.rip == l.abortAt
    ensures Run(l, u, 1) == u.(rip := u.Read(u.regs.r8))
  {
    Fetched(l);
    RunOne(l, u);
    hide SwitchCode, SaveCode, Fetch;
  }

  // ------------------------------------------------------------------------- run

  /** How the user program ends. */
  datatype Exit = Returned(cpu: Cpu) | CalledAbort(cpu: Cpu, code: nat)

  /**
    The state at the start of the block: zeroed words for the saved stack
    pointer and the abort address, and the operands.
   */
  function Operands(l: Layout, c: Cpu, savedSpAt: nat, abortAddrAt: nat, entry: nat, functions: nat): (c': Cpu)
  {
    var newRsp := USER_STACK_START + USER_STACK_SIZE - 1024;
    Cpu(c.regs.(r8 := savedSpAt, r9 := newRsp, r10 := abortAddrAt, r11 := entry, r12 := functions),
        c.mem[savedSpAt := 0][abortAddrAt := 0], l.switchAt)
  }

  /**
    The state that a program starts in: at its entry point, with the function
    pointers as its argument, 1 KiB and two return addresses below the end of
    its stack.
   */
  predicate Starts(l: Layout, e: Cpu, entry: nat, functions: nat)
  {
    && e.rip == entry && e.regs.rdi == functions
    && e.regs.rbp == USER_STACK_START + USER_STACK_SIZE - 1024
    && e.regs.rsp == USER_STACK_START + USER_STACK_SIZE - 1024 - 16
    && e.Read(e.regs.rsp) == l.saveAt + 5
  }

  lemma EntersAt(l: Layout, c: Cpu, e: Cpu, entry: nat, functions: nat)
    requires Entered(l, c, e) && c.regs.r11 == entry && c.regs.r12 == functions
    requires c.regs.r9 == USER_STACK_START + USER_STACK_SIZE - 1024
    ensures FrameSaved(l, c, e) && Starts(l, e, entry, functions)
  {
    hide FrameSaved;
  }

  /**
    A detail of that state: the calling convention wants rsp + 8 to be a
    multiple of 16 at an entry point, and it is not.
   */
  lemma EntersMisaligned(l: Layout, e: Cpu, entry: nat, functions: nat)
    requires Starts(l, e, entry, functions)
    ensures e.regs.rsp % 16 == 0 && (e.regs.rsp + 8) % 16 == 8
  {
  }

  /**
    The program respects its side: it returns by the calling convention, or
    aborts, and leaves the saved frame alone.
   */
  predicate WellBehaved(l: Layout, c: Cpu, e: Cpu, x: Exit)
  {
    match x
    case Returned(u) => Returns(l, c, e, u)
    case CalledAbort(u, _) => FrameSaved(l, c, u)
  }

  function ExitCode(x: Exit): (code: nat)
  {
    match x
    case Returned(u) => u.regs.rax
    case CalledAbort(_, code) => code
  }

  /** One core: its registers and memory, its CR3, its `running_application_data` and where that keeps the two words. */
  class Core {
    var cpu: Cpu
    var cr3: nat
    var running: Running
    const savedSpAt: nat
    const abortAddrAt: nat

    constructor (c: Cpu, table: nat, savedSp: nat, abortAddr: nat)
      ensures cpu == c && cr3 == table && running == NoApplication && savedSpAt == savedSp && abortAddrAt == abortAddr
    {
      cpu, cr3, running, savedSpAt, abortAddrAt := c, table, NoApplication, savedSp, abortAddr;
    }

    /**
      `run`.  `user` is the computation of the program, from its first
      instruction to its end, on the registers, the table and the core-local
      data that it starts with.  `abort` always finds its application, and the
      kernel resumes as it was.
     */
    method RunApplication(l: Layout, table: nat, kernelTable: nat, entry: nat, functions: nat,
                          user: (Cpu, nat, Running) -> Exit)
      returns (exitCode: nat)
      requires var c := Operands(l, cpu, savedSpAt, abortAddrAt, entry, functions);
        Ready(l, c) &&
          WellBehaved(l, c, Run(l, c, 17), user(Run(l, c, 17), table, Application(table, savedSpAt, abortAddrAt)))
      modifies this
      ensures var e := Run(l, Operands(l, old(cpu), savedSpAt, abortAddrAt, entry, functions), 17);
        && Starts(l, e, entry, functions)
        && FrameSaved(l, Operands(l, old(cpu), savedSpAt, abortAddrAt, entry, functions), e)
        && exitCode == ExitCode(user(e, table, Application(table, savedSpAt, abortAddrAt)))
      ensures cpu.regs.rsp == old(cpu).regs.rsp && cpu.regs.rbx == old(cpu).regs.rbx
      ensures cpu.regs.rbp == old(cpu).regs.rbp
      ensures cpu.regs.r14 == old(cpu).regs.r14 && cpu.regs.r15 == old(cpu).regs.r15
      ensures cpu.rip == l.switchAt + 18 && cpu.regs.r13 == exitCode
      ensures running == NoApplication && cr3 == kernelTable
    {
      hide Run, Below, Above, Away, FrameSaved, Entered, Returns, Starts;
      cr3 := table;
      running := Application(table, savedSpAt, abortAddrAt);
      cpu := Operands(l, cpu, savedSpAt, abortAddrAt, entry, functions);
      ghost var c := cpu;
      GoesIn(l, c);
      EntersAt(l, c, Run(l, c, 17), entry, functions);
      cpu := Run(l, cpu, 17);
      match user(cpu, cr3, running) {
        case Returned(u) =>
          ReturnRoundTrip(l, c, u);
          cpu := Run(l, u, 8);
        case CalledAbort(u, code) =>
          AbortRoundTrip(l, c, code, u, table);
          var v := AbortEntry(l, u, code, running);
          cpu := Run(l, v.value, 7);
      }
      exitCode := cpu.regs.r13;
      running := NoApplication;
      cr3 := kernelTable;
    }
  }
}
