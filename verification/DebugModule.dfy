/**
  The far end of the debug bus: a debug module with one hart behind it, as
  sections 3.6.1.1 (Access Register), 3.7 (Program Buffer) and 3.12 (registers)
  of RISC-V External Debug Support 0.13.2 describe them and as
  src/debug/dm_csrs.sv and src/debug/dm_mem.sv answer the bus.

  Time passes between bus accesses: `Step` lets the module and the hart do one
  thing, and how long a halt, a resume or a command waits before it starts is
  chosen freely (`lag`). A hart that is not halted leaves memory and registers
  alone: the program it runs is not part of this model.
*/
module DebugModule {
  import opened Fields
  import opened Encoding
  import opened Bytes
  import opened Hart

  // An abstract command, read from the word written to the command register:
  // only Access Register is supported, without post-increment.
  datatype Command =
    | Access(size: nat, general: bool, reg: Reg, transfer: bool, write: bool, postexec: bool)
    | Unsupported

  datatype Exec = Quiet | Transfer(command: Command, lag: nat) | Running(pc: nat)

  datatype Request = NoRequest | HaltIn(lag: nat) | ResumeIn(lag: nat)

  datatype Error = NoError | BusyError | NotSupported | ExceptionError | HaltResume

  datatype Target = Target(
    hart: Word,
    cpu: Cpu,
    halted: bool,
    resumeack: bool,
    request: Request,
    progbuf: seq<Word>,
    data: seq<nat>,
    autoexec: Word,
    lastCommand: Command,
    error: Error,
    exec: Exec)

  // ---------- Bus addresses and register fields ----------

  const DATA0: nat := 0x04
  const DMCONTROL: nat := 0x10
  const DMSTATUS: nat := 0x11
  const ABSTRACTCS: nat := 0x16
  const COMMAND: nat := 0x17
  const ABSTRACTAUTO: nat := 0x18
  const PROGBUF0: nat := 0x20

  const HALTREQ: Word := 0x80000000
  const RESUMEREQ: Word := 0x40000000
  const HARTSEL: Word := 0x03ff0000
  const DMACTIVE: Word := 1
  const ALLRESUMEACK: Word := 0x20000
  const ALLHALTED: Word := 0x200
  const BUSY: Word := 0x1000
  const CMDERR: Word := 0x700

  const POSTEXEC: Word := 0x40000
  const TRANSFER: Word := 0x20000
  const WRITE: Word := 0x10000

  // The cmderr field.
  function Code(e: Error): Word {
    match e
    case NoError => 0
    case BusyError => 1
    case NotSupported => 2
    case ExceptionError => 3
    case HaltResume => 4
  }

  function ErrorOf(code: Word): Error {
    if code == 1 then BusyError
    else if code == 2 then NotSupported
    else if code == 3 then ExceptionError
    else if code == 4 then HaltResume
    else NoError
  }

  // ---------- The debugger's side ----------

  ghost predicate DataFit(data: seq<nat>, xlen: nat) {
    xlen / 32 <= |data| <= 12 && forall i :: 0 <= i < |data| ==> data[i] < 0x1_0000_0000
  }

  ghost predicate Fit(t: Target) {
    Wf(t.cpu) && DataFit(t.data, t.cpu.xlen) && |t.progbuf| <= 16
  }

  predicate Busy(t: Target) {
    !t.exec.Quiet?
  }

  function Complain(t: Target): Target {
    if t.error.NoError? then t.(error := BusyError) else t
  }

  function Start(t: Target, command: Command, lag: nat): Target {
    t.(exec := Transfer(command, lag), lastCommand := command)
  }

  // An access to data word i or program word i - 16 runs the last command
  // again when bit i of abstractauto asks for it.
  function Retrigger(t: Target, bit: nat, lag: nat): Target
    requires bit < 32
  {
    if t.autoexec != 0 && (t.autoexec >> bit) & 1 == 1 && t.error.NoError? then Start(t, t.lastCommand, lag) else t
  }

  function WriteControl(t: Target, w: Word, lag: nat): Target {
    if w & DMACTIVE == 0 then t.(exec := Quiet, request := NoRequest, autoexec := 0, error := NoError)
    else if (w >> 16) & 0x3ff != t.hart then t
    else if w & HALTREQ != 0 then t.(request := HaltIn(lag))
    else if w & RESUMEREQ != 0 then t.(request := ResumeIn(lag), resumeack := false)
    else if t.request.HaltIn? then t.(request := NoRequest)
    else t
  }

  function DmiWrite(t: Target, addr: nat, v: nat, lag: nat): Target
    requires v < 0x1_0000_0000 && |t.data| <= 12 && |t.progbuf| <= 16
  {
    if addr == DMCONTROL then WriteControl(t, v as Word, lag)
    else if addr == COMMAND then
      if Busy(t) then Complain(t)
      else if t.error.NoError? then Start(t, ReadCommand(v as Word), lag)
      else t
    else if addr == ABSTRACTCS then
      if Busy(t) then Complain(t) else t.(error := ErrorOf(Code(t.error) & !(((v as Word) >> 8) & 7)))
    else if addr == ABSTRACTAUTO then
      if Busy(t) then Complain(t) else t.(autoexec := (v as Word) & 0xffff0fff)
    else if DATA0 <= addr < DATA0 + |t.data| then
      if Busy(t) then Complain(t)
      else Retrigger(t.(data := t.data[addr - DATA0 := v]), addr - DATA0, lag)
    else if PROGBUF0 <= addr < PROGBUF0 + |t.progbuf| then
      if Busy(t) then Complain(t)
      else Retrigger(t.(progbuf := t.progbuf[addr - PROGBUF0 := v as Word]), 16 + addr - PROGBUF0, lag)
    else t
  }

  function ReadCommand(w: Word): Command {
    if w & 0xff880000 != 0 then Unsupported
    else
      Access(SizeOf((w >> 20) & 7), w & 0xffe0 == 0x1000, Index(w & 31), w & TRANSFER != 0, w & WRITE != 0,
             w & POSTEXEC != 0)
  }

  // Register width in bits for a value of the size field.
  function SizeOf(code: Word): nat {
    if code == 2 then 32 else if code == 3 then 64 else if code == 4 then 128 else 0
  }

  function AbstractStatus(busy: bool, cmderr: Word, progsize: Word, datacount: Word): Word {
    (if busy then BUSY else 0) | (cmderr << 8) | ((progsize & 0x1f) << 24) | (datacount & 0x1f)
  }

  function HartStatus(halted: bool, resumeack: bool): Word {
    (if halted then ALLHALTED else 0) | (if resumeack then ALLRESUMEACK else 0)
  }

  // What a read returns.
  function DmiValue(t: Target, addr: nat): (v: nat)
    requires Fit(t)
    ensures v < 0x1_0000_0000
  {
    if addr == DMSTATUS then HartStatus(t.halted, t.resumeack) as nat
    else if addr == ABSTRACTCS then
      AbstractStatus(Busy(t), Code(t.error), |t.progbuf| as Word, |t.data| as Word) as nat
    else if DATA0 <= addr < DATA0 + |t.data| && !Busy(t) then t.data[addr - DATA0]
    else if PROGBUF0 <= addr < PROGBUF0 + |t.progbuf| then t.progbuf[addr - PROGBUF0] as nat
    else 0
  }

  // What a read does.
  function DmiRead(t: Target, addr: nat, lag: nat): Target
    requires |t.data| <= 12 && |t.progbuf| <= 16
  {
    if DATA0 <= addr < DATA0 + |t.data| then
      if Busy(t) then Complain(t) else Retrigger(t, addr - DATA0, lag)
    else if PROGBUF0 <= addr < PROGBUF0 + |t.progbuf| then
      if Busy(t) then Complain(t) else Retrigger(t, 16 + addr - PROGBUF0, lag)
    else t
  }

  // ---------- The hart's side ----------

  function Fail(t: Target, e: Error): Target {
    t.(exec := Quiet, error := e)
  }

  function Argument(t: Target): nat
    requires t.cpu.xlen / 32 <= |t.data| && (t.cpu.xlen == 32 || t.cpu.xlen == 64)
  {
    Joined(t.data[..t.cpu.xlen / 32])
  }

  function SetArgument(t: Target, v: nat): Target
    requires t.cpu.xlen / 32 <= |t.data| && (t.cpu.xlen == 32 || t.cpu.xlen == 64)
  {
    t.(data := Splice(t.data, 0, Words(v, Width(t.cpu.xlen))))
  }

  function Follow(t: Target, postexec: bool): Target {
    t.(exec := if postexec then Running(0) else Quiet)
  }

  // Only general-purpose registers, only in their full width.
  function RunTransfer(t: Target, c: Command): Target
    requires Fit(t)
  {
    if c.Unsupported? then Fail(t, NotSupported)
    else if !t.halted then Fail(t, HaltResume)
    else if !c.transfer then Follow(t, c.postexec)
    else if c.size != t.cpu.xlen || !c.general then Fail(t, NotSupported)
    else if c.write then Follow(t.(cpu := SetReg(t.cpu, c.reg, Argument(t))), c.postexec)
    else Follow(SetArgument(t, t.cpu.regs[c.reg]), c.postexec)
  }

  // The module watching a program.
  function Observe(t: Target, r: Run): Target {
    match r.progress
    case At(pc) => t.(cpu := r.cpu, exec := Running(pc))
    case Done => t.(cpu := r.cpu, exec := Quiet)
    case Trapped => t.(cpu := r.cpu, exec := Quiet, error := ExceptionError)
  }

  function Step(t: Target): Target
    requires Fit(t)
  {
    match t.exec
    case Transfer(command, lag) =>
      if lag > 0 then t.(exec := Transfer(command, lag - 1)) else RunTransfer(t.(exec := Quiet), command)
    case Running(pc) => Observe(t, Next(t.cpu, Decoded(t.progbuf), pc))
    case Quiet =>
      match t.request
      case NoRequest => t
      case HaltIn(lag) =>
        if lag > 0 then t.(request := HaltIn(lag - 1)) else t.(request := NoRequest, halted := true)
      case ResumeIn(lag) =>
        if lag > 0 then t.(request := ResumeIn(lag - 1))
        else t.(request := NoRequest, halted := false, resumeack := true)
  }

  // ---------- Runs ----------

  lemma ArgumentFits(t: Target)
    requires Fit(t)
    ensures Argument(t) < Limit(t.cpu.xlen)
  {
    if t.cpu.xlen == 64 {
      assert t.data[0] + 0x1_0000_0000 * t.data[1] < 0x1_0000_0000_0000_0000;
    }
  }

  lemma SetArgumentFits(t: Target, v: nat)
    requires Fit(t) && v < Limit(t.cpu.xlen)
    ensures Fit(SetArgument(t, v))
  {
    if t.cpu.xlen == 64 {
      assert v / 0x1_0000_0000 < 0x1_0000_0000;
    }
  }

  lemma TransferFits(t: Target, c: Command)
    requires Fit(t)
    ensures Fit(RunTransfer(t, c))
  {
    if c.Access? {
      ArgumentFits(t);
      SetArgumentFits(t, t.cpu.regs[c.reg]);
    }
  }

  lemma StepFits(t: Target)
    requires Fit(t)
    ensures Fit(Step(t))
  {
    match t.exec
    case Transfer(command, lag) => TransferFits(t.(exec := Quiet), command);
    case Running(pc) => NextKeepsWf(t.cpu, Decoded(t.progbuf), pc);
    case Quiet =>
  }

  // Nothing left to do.
  predicate Settled(t: Target) {
    t.exec.Quiet? && t.request.NoRequest?
  }

  // The hart is not asked to halt or resume in the middle of a command.
  predicate Orderly(t: Target) {
    Busy(t) ==> t.request.NoRequest?
  }

  // The target once a program has run for n more steps.
  function Ran(t: Target, n: nat): Target
    requires Fit(t)
  {
    match t.exec
    case Running(pc) => Observe(t, RunN(t.cpu, Decoded(t.progbuf), pc, n))
    case _ => t
  }

  // Where the target is headed: the pending command is carried out with n steps
  // of its program, the pending halt or resume is served.
  function Outcome(t: Target, n: nat): Target
    requires Fit(t)
  {
    match t.exec
    case Transfer(command, _) =>
      TransferFits(t.(exec := Quiet), command);
      Ran(RunTransfer(t.(exec := Quiet), command), n)
    case Running(_) => Ran(t, n)
    case Quiet =>
      match t.request
      case NoRequest => t
      case HaltIn(_) => t.(request := NoRequest, halted := true)
      case ResumeIn(_) => t.(request := NoRequest, halted := false, resumeack := true)
  }

  // How far away that is.
  function Distance(t: Target, n: nat): nat {
    match t.exec
    case Transfer(_, lag) => lag + 1 + n
    case Running(_) => n
    case Quiet =>
      match t.request
      case NoRequest => 0
      case HaltIn(lag) => lag + 1
      case ResumeIn(lag) => lag + 1
  }

  lemma ObserveAgain(t: Target, first: Run, r: Run)
    requires first.progress.At?
    ensures Observe(Observe(t, first), r) == Observe(t, r)
  {
  }

  // Closer to the same outcome.
  ghost predicate Closer(next: Target, left: nat, t: Target, n: nat) {
    && Fit(t) && Fit(next) && Orderly(next)
    && Outcome(next, left) == Outcome(t, n) && Distance(next, left) < Distance(t, n)
    && (t.request.NoRequest? ==> next.request.NoRequest?)
    && (t.exec.Quiet? ==> next.exec.Quiet? && (next.request.ResumeIn? ==> next.resumeack == t.resumeack))
  }

  lemma RunningStep(t: Target, pc: nat, n: nat)
    requires Fit(t) && t.exec == Running(pc) && t.request.NoRequest? && Settled(Ran(t, n))
    ensures n > 0 && Closer(Step(t), n - 1, t, n)
  {
    StepFits(t);
    var program := Decoded(t.progbuf);
    NextKeepsWf(t.cpu, program, pc);
    var first := Next(t.cpu, program, pc);
    if first.progress.At? {
      ObserveAgain(t, first, RunN(first.cpu, program, first.progress.pc, n - 1));
    }
  }

  lemma TransferStep(t: Target, c: Command, n: nat)
    requires Fit(t) && t.exec == Transfer(c, 0) && t.request.NoRequest?
    ensures Closer(Step(t), n, t, n)
  {
    StepFits(t);
  }

  lemma LagStep(t: Target, c: Command, lag: nat, n: nat)
    requires Fit(t) && t.exec == Transfer(c, lag) && lag > 0 && t.request.NoRequest?
    ensures Closer(Step(t), n, t, n)
  {
  }

  lemma RequestStep(t: Target, n: nat)
    requires Fit(t) && t.exec.Quiet? && !t.request.NoRequest?
    ensures Closer(Step(t), n, t, n)
  {
  }

  // Every step brings a target that is not settled closer to its outcome.
  lemma OutcomeStep(t: Target, n: nat) returns (left: nat)
    requires Fit(t) && Orderly(t) && !Settled(t) && Settled(Outcome(t, n))
    ensures Closer(Step(t), left, t, n)
  {
    left := n;
    if t.exec.Quiet? {
      RequestStep(t, n);
    } else if t.exec.Running? {
      RunningStep(t, t.exec.pc, n);
      left := n - 1;
    } else if t.exec.lag > 0 {
      LagStep(t, t.exec.command, t.exec.lag, n);
    } else {
      TransferStep(t, t.exec.command, n);
    }
  }

  // ---------- Commands ----------

  // The target once command c is over, n steps into its program.
  function Finished(t: Target, c: Command, n: nat): Target
    requires Fit(t)
  {
    Outcome(Start(t, c, 0), n)
  }

  lemma LagIsNoMatter(t: Target, c: Command, lag: nat, n: nat)
    requires Fit(t)
    ensures Outcome(Start(t, c, lag), n) == Finished(t, c, n)
  {
    assert Start(t, c, lag).(exec := Quiet) == Start(t, c, 0).(exec := Quiet);
  }

  lemma RanFits(t: Target, n: nat)
    requires Fit(t)
    ensures Fit(Ran(t, n)) && Ran(t, n).autoexec == t.autoexec && |Ran(t, n).data| == |t.data|
  {
    if t.exec.Running? {
      RunKeepsShape(t.cpu, Decoded(t.progbuf), t.exec.pc, n);
    }
  }

  lemma TransferShape(t: Target, c: Command) returns (next: Target)
    requires Fit(t)
    ensures next == RunTransfer(t, c) && Fit(next) && next.autoexec == t.autoexec && |next.data| == |t.data|
  {
    next := RunTransfer(t, c);
    TransferFits(t, c);
  }

  lemma FinishedFits(t: Target, c: Command, n: nat)
    requires Fit(t)
    ensures Fit(Finished(t, c, n))
    ensures Finished(t, c, n).autoexec == t.autoexec && |Finished(t, c, n).data| == |t.data|
  {
    var next := TransferShape(Start(t, c, 0).(exec := Quiet), c);
    RanFits(next, n);
  }

  // Whatever the lag, the target comes to rest in `after` once command c is
  // issued and its program has run for n steps.
  ghost predicate Ends(t: Target, c: Command, n: nat, after: Target)
    requires Fit(t)
  {
    && Fit(after) && Settled(after) && after.autoexec == t.autoexec && |after.data| == |t.data|
    && forall lag: nat :: Outcome(Start(t, c, lag), n) == after
  }

  lemma FinishedEnds(t: Target, c: Command, n: nat)
    requires Fit(t) && Settled(Finished(t, c, n))
    ensures Ends(t, c, n, Finished(t, c, n))
  {
    FinishedFits(t, c, n);
    forall lag: nat ensures Outcome(Start(t, c, lag), n) == Finished(t, c, n) {
      LagIsNoMatter(t, c, lag, n);
    }
  }

  // What a command leaves alone.
  ghost predicate OnlyScratch(next: Target, t: Target) {
    && next == t.(cpu := next.cpu, progbuf := next.progbuf, data := next.data, lastCommand := next.lastCommand)
    && next.cpu.xlen == t.cpu.xlen && |next.cpu.mem| == |t.cpu.mem|
    && |next.progbuf| == |t.progbuf| && |next.data| == |t.data|
  }

  // Words written to the data registers are a command's argument, and a
  // command's result is read back from them.
  lemma ArgumentOf(t: Target, v: nat)
    requires Fit(t) && v < Limit(t.cpu.xlen)
    ensures Argument(SetArgument(t, v)) == v
    ensures SetArgument(t, v).data[..t.cpu.xlen / 32] == Words(v, Width(t.cpu.xlen))
  {
    var ws := Words(v, Width(t.cpu.xlen));
    assert Splice(t.data, 0, ws)[..|ws|] == ws;
  }

  lemma ReadRegister(t: Target, r: Reg)
    requires Fit(t) && Settled(t) && t.halted
    ensures var c := Access(t.cpu.xlen, true, r, true, false, false);
            Finished(t, c, 0) == SetArgument(t, t.cpu.regs[r]).(lastCommand := c)
  {
  }

  lemma WriteRegister(t: Target, r: Reg)
    requires Fit(t) && Settled(t) && t.halted
    ensures var c := Access(t.cpu.xlen, true, r, true, true, false);
            Finished(t, c, 0) == t.(cpu := SetReg(t.cpu, r, Argument(t)), lastCommand := c)
  {
  }

  lemma ReadThenRun(t: Target, r: Reg, n: nat, after: Cpu)
    requires Fit(t) && Settled(t) && t.halted
    requires RunN(t.cpu, Decoded(t.progbuf), 0, n) == Run(after, Done)
    ensures var c := Access(t.cpu.xlen, true, r, true, false, true);
            Finished(t, c, n) == SetArgument(t, t.cpu.regs[r]).(lastCommand := c, cpu := after)
  {
  }

  lemma WriteThenRun(t: Target, r: Reg, n: nat, after: Cpu)
    requires Fit(t) && Settled(t) && t.halted
    requires Wf(SetReg(t.cpu, r, Argument(t)))
    requires RunN(SetReg(t.cpu, r, Argument(t)), Decoded(t.progbuf), 0, n) == Run(after, Done)
    ensures var c := Access(t.cpu.xlen, true, r, true, true, true);
            Finished(t, c, n) == t.(lastCommand := c, cpu := after)
  {
  }

  // ---------- Bus accesses to a settled target ----------

  lemma WriteDataWord(t: Target, i: nat, v: nat, lag: nat)
    requires Fit(t) && Settled(t) && t.autoexec == 0 && i < |t.data| && v < 0x1_0000_0000
    ensures DmiWrite(t, DATA0 + i, v, lag) == t.(data := t.data[i := v])
  {
  }

  lemma WriteProgramWord(t: Target, i: nat, w: Word, lag: nat)
    requires Fit(t) && Settled(t) && t.autoexec == 0 && i < |t.progbuf|
    ensures DmiWrite(t, PROGBUF0 + i, w as nat, lag) == t.(progbuf := t.progbuf[i := w])
  {
  }

  lemma CodeCleared(e: Error)
    ensures Code(e) & !((CMDERR >> 8) & 7) == 0
  {
  }

  lemma ClearError(t: Target, v: nat, lag: nat)
    requires Fit(t) && Settled(t) && v < 0x1_0000_0000 && v as Word == CMDERR
    ensures DmiWrite(t, ABSTRACTCS, v, lag) == t.(error := NoError)
  {
    CodeCleared(t.error);
  }

  lemma WriteCommand(t: Target, w: Word, lag: nat)
    requires Fit(t) && Settled(t) && t.error.NoError?
    ensures DmiWrite(t, COMMAND, w as nat, lag) == Start(t, ReadCommand(w), lag)
  {
  }

  lemma WriteAuto(t: Target, v: nat, w: Word, lag: nat)
    requires Fit(t) && Settled(t) && v < 0x1_0000_0000 && v as Word == w && w & 0xffff0fff == w
    ensures DmiWrite(t, ABSTRACTAUTO, v, lag) == t.(autoexec := w)
  {
  }

  // With only autoexecdata bit 0 set, data word 1 is just a register and data
  // word 0 runs the last command again.
  lemma WriteHighWord(t: Target, v: nat, lag: nat)
    requires Fit(t) && Settled(t) && t.autoexec == 1 && |t.data| > 1 && v < 0x1_0000_0000
    ensures DmiWrite(t, DATA0 + 1, v, lag) == t.(data := t.data[1 := v])
  {
  }

  lemma WriteLowWord(t: Target, v: nat, lag: nat)
    requires Fit(t) && Settled(t) && t.autoexec == 1 && t.error.NoError? && |t.data| > 0 && v < 0x1_0000_0000
    ensures DmiWrite(t, DATA0, v, lag) == Start(t.(data := t.data[0 := v]), t.lastCommand, lag)
  {
  }
}
