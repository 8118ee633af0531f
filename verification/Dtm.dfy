/**
  The host's debug transport, tb/dpi/fesvr/dtm.cc: bus accesses, halting and
  resuming the hart, abstract commands, and the three chunk operations on
  target memory.

  The target's debug module is state of this class, because every bus access
  changes it. Bus time passes in `Pause`, called by every read, which lets the
  module take any positive number of steps.
*/
module Dtm {
  import opened Fields
  import opened Encoding
  import opened Bytes
  import opened Hart
  import opened DebugModule
  import opened DebugPrograms
  import opened AbstractCommands

  // ---------- The result of a CSR access ----------

  // A 64-bit CSR value comes back in data words 0 and 1. The host ORs word 1
  // onto word 0 without moving it up.
  function CsrResult(word0: bv64, word1: bv64): bv64 {
    word0 | word1
  }

  // So the result is the CSR's value exactly when its upper half is zero.
  lemma CsrResultIsValue(word0: bv64, word1: bv64)
    requires word0 < 0x1_0000_0000 && word1 < 0x1_0000_0000
    ensures CsrResult(word0, word1) == word0 | (word1 << 32) <==> word1 == 0
  {
    if word1 != 0 {
      assert CsrResult(word0, word1) < 0x1_0000_0000;
      assert word0 | (word1 << 32) >= 0x1_0000_0000;
    }
  }

  lemma CsrResultCounterexample()
    ensures CsrResult(0, 1) == 1 && CsrResult(0, 1) != (0 as bv64) | (1 << 32)
  {
  }

  class Host {
    const xlen: nat
    const hart: Word
    var t: Target

    ghost predicate Valid()
      reads this
    {
      Fit(t) && Orderly(t) && Shape()
    }

    // The hart this host was made for, and room for the longest program.
    ghost predicate Shape()
      reads this
    {
      t.cpu.xlen == xlen && t.hart == hart && hart < 1024 && |t.progbuf| >= 4
    }

    // ---------- Bus accesses ----------

    // At least one step passes.
    method Pause(ghost n: nat) returns (ghost left: nat)
      requires Fit(t) && Orderly(t) && Settled(Outcome(t, n))
      modifies this
      ensures Fit(t) && Orderly(t) && Outcome(t, left) == old(Outcome(t, n))
      ensures Settled(old(t)) ==> t == old(t)
      ensures Quietly(old(t)) ==> Quietly(t) && (t.request.ResumeIn? ==> t.resumeack == old(t).resumeack)
      ensures old(t).request.NoRequest? ==> t.request.NoRequest?
      ensures !Settled(old(t)) ==> Distance(t, left) < old(Distance(t, n))
    {
      left := Tick(n);
      var more: int := *;
      while more > 0
        invariant Fit(t) && Orderly(t) && Outcome(t, left) == old(Outcome(t, n))
        invariant Settled(old(t)) ==> t == old(t)
        invariant Quietly(old(t)) ==> Quietly(t) && (t.request.ResumeIn? ==> t.resumeack == old(t).resumeack)
        invariant old(t).request.NoRequest? ==> t.request.NoRequest?
        invariant !Settled(old(t)) ==> Distance(t, left) < old(Distance(t, n))
      {
        left := Tick(left);
        more := more - 1;
      }
    }

    method Tick(ghost n: nat) returns (ghost left: nat)
      requires Fit(t) && Orderly(t) && Settled(Outcome(t, n))
      modifies this
      ensures Fit(t) && Orderly(t) && Outcome(t, left) == old(Outcome(t, n))
      ensures Settled(old(t)) ==> t == old(t)
      ensures Quietly(old(t)) ==> Quietly(t) && (t.request.ResumeIn? ==> t.resumeack == old(t).resumeack)
      ensures old(t).request.NoRequest? ==> t.request.NoRequest?
      ensures !Settled(old(t)) ==> Distance(t, left) < old(Distance(t, n))
    {
      left := n;
      if Settled(t) {
        t := Step(t);
      } else {
        left := OutcomeStep(t, n);
        t := Step(t);
      }
    }

    // A read that has no effect of its own: of a status register, or of any
    // register while nothing is to be run again.
    method Read(addr: nat, ghost n: nat) returns (v: nat, ghost left: nat)
      requires Fit(t) && Orderly(t) && Settled(Outcome(t, n))
      requires addr == DMSTATUS || addr == ABSTRACTCS || (Settled(t) && t.autoexec == 0)
      modifies this
      ensures Fit(t) && Orderly(t) && Outcome(t, left) == old(Outcome(t, n))
      ensures Settled(old(t)) ==> t == old(t)
      ensures Quietly(old(t)) ==> Quietly(t) && (t.request.ResumeIn? ==> t.resumeack == old(t).resumeack)
      ensures old(t).request.NoRequest? ==> t.request.NoRequest?
      ensures !Settled(old(t)) ==> Distance(t, left) < old(Distance(t, n))
      ensures v == DmiValue(t, addr)
    {
      left := Pause(n);
      v := DmiValue(t, addr);
      var lag: int := *;
      ReadChangesNothing(t, addr, if lag < 0 then 0 else lag);
      t := DmiRead(t, addr, if lag < 0 then 0 else lag);
    }

    method Write(addr: nat, v: nat) returns (ghost lag: nat)
      requires Fit(t) && v < 0x1_0000_0000
      modifies this
      ensures t == DmiWrite(old(t), addr, v, lag)
    {
      var wait: int := *;
      lag := if wait < 0 then 0 else wait;
      t := DmiWrite(t, addr, v, if wait < 0 then 0 else wait);
    }

    // ---------- Halting and resuming ----------

    method AwaitHalted()
      requires Fit(t) && Quietly(t) && t.request.HaltIn?
      modifies this
      ensures Fit(t) && Quietly(t) && t.halted && !t.request.ResumeIn?
      ensures t.(request := NoRequest) == old(t).(request := NoRequest, halted := true)
    {
      ghost var left := 0;
      ghost var goal := t.(request := NoRequest, halted := true);
      var polling := true;
      while polling
        invariant Fit(t) && Quietly(t) && Outcome(t, left) == goal
        invariant polling || t.halted
        decreases polling, Distance(t, left)
      {
        var dmstatus: nat;
        dmstatus, left := Read(DMSTATUS, left);
        PolledHalt(t);
        polling := GetField(dmstatus as Word, ALLHALTED) == 0;
      }
    }

    // The source's halt asks, waits, stops asking, and reads once more so as
    // not to write dmcontrol back to back.
    method Halt()
      requires Valid() && Settled(t)
      modifies this
      ensures t == old(t).(halted := true)
    {
      var dmcontrol := AskWord(HALTREQ, hart);
      ghost var _ := AskHalt(dmcontrol);
      AwaitHalted();
      DropHalt(dmcontrol & !HALTREQ);
      var _, _ := Read(DMSTATUS, 0);
    }

    method AskHalt(dmcontrol: Word) returns (ghost lag: nat)
      requires Fit(t) && t.hart < 1024 && dmcontrol == AskWord(HALTREQ, t.hart)
      modifies this
      ensures t == old(t).(request := HaltIn(lag))
    {
      lag := Write(DMCONTROL, dmcontrol as nat);
      HaltAsked(old(t), lag);
    }

    method DropHalt(dmcontrol: Word)
      requires Fit(t) && t.hart < 1024 && !t.request.ResumeIn? && dmcontrol == AskWord(HALTREQ, t.hart) & !HALTREQ
      modifies this
      ensures t == old(t).(request := NoRequest)
    {
      ghost var lag := Write(DMCONTROL, dmcontrol as nat);
      HaltDropped(old(t), lag);
    }

    method AwaitResumed()
      requires Fit(t) && Quietly(t) && t.request.ResumeIn? && !t.resumeack
      modifies this
      ensures t == old(t).(request := NoRequest, halted := false, resumeack := true)
    {
      ghost var left := 0;
      ghost var goal := t.(request := NoRequest, halted := false, resumeack := true);
      var polling := true;
      while polling
        invariant Fit(t) && Quietly(t) && Outcome(t, left) == goal
        invariant t.request.ResumeIn? ==> !t.resumeack
        invariant polling || t.resumeack
        decreases polling, Distance(t, left)
      {
        var dmstatus: nat;
        dmstatus, left := Read(DMSTATUS, left);
        PolledHalt(t);
        polling := GetField(dmstatus as Word, ALLRESUMEACK) == 0;
      }
    }

    method Resume()
      requires Valid() && Settled(t)
      modifies this
      ensures t == old(t).(halted := false, resumeack := true)
    {
      var dmcontrol := AskWord(RESUMEREQ, hart);
      ghost var _ := AskResume(dmcontrol);
      AwaitResumed();
      DropResume(dmcontrol & !RESUMEREQ);
      var _, _ := Read(DMSTATUS, 0);
    }

    method AskResume(dmcontrol: Word) returns (ghost lag: nat)
      requires Fit(t) && t.hart < 1024 && dmcontrol == AskWord(RESUMEREQ, t.hart)
      modifies this
      ensures t == old(t).(request := ResumeIn(lag), resumeack := false)
    {
      lag := Write(DMCONTROL, dmcontrol as nat);
      ResumeAsked(old(t), lag);
    }

    method DropResume(dmcontrol: Word)
      requires Fit(t) && t.hart < 1024 && t.request.NoRequest? && dmcontrol == AskWord(RESUMEREQ, t.hart) & !RESUMEREQ
      modifies this
      ensures t == old(t)
    {
      ghost var lag := Write(DMCONTROL, dmcontrol as nat);
      ResumeDropped(old(t), lag);
    }

    // ---------- Abstract commands ----------

    method PutProgramWord(i: nat, w: Word)
      requires Fit(t) && Settled(t) && t.autoexec == 0 && i < |t.progbuf|
      modifies this
      ensures t == old(t).(progbuf := old(t).progbuf[i := w])
    {
      OverTheBus(w);
      ghost var lag := Write(PROGBUF0 + i, w as nat);
      WriteProgramWord(old(t), i, w, lag);
    }

    method WriteProgram(program: seq<Word>)
      requires Fit(t) && Settled(t) && t.autoexec == 0 && |program| <= |t.progbuf|
      modifies this
      ensures t == old(t).(progbuf := Splice(old(t).progbuf, 0, program))
    {
      for i := 0 to |program|
        invariant t == old(t).(progbuf := Splice(old(t).progbuf, 0, program[..i]))
      {
        SpliceOneMore(old(t).progbuf, program, i);
        PutProgramWord(i, program[i]);
      }
      assert program[..|program|] == program;
    }

    method PutDataWord(i: nat, v: nat)
      requires Fit(t) && Settled(t) && t.autoexec == 0 && i < |t.data| && v < 0x1_0000_0000
      modifies this
      ensures t == old(t).(data := old(t).data[i := v])
    {
      ghost var lag := Write(DATA0 + i, v);
      WriteDataWord(old(t), i, v, lag);
    }

    method WriteData(ws: seq<nat>)
      requires Fit(t) && Settled(t) && t.autoexec == 0 && |ws| <= |t.data| && WordsFit(ws)
      modifies this
      ensures t == old(t).(data := Splice(old(t).data, 0, ws))
    {
      for i := 0 to |ws|
        invariant DataFit(t.data, t.cpu.xlen)
        invariant t == old(t).(data := Splice(old(t).data, 0, ws[..i]))
      {
        SpliceOneMore(old(t).data, ws, i);
        PutDataWord(i, ws[i]);
      }
      assert ws[..|ws|] == ws;
    }

    method ReadData(count: nat) returns (ws: seq<nat>)
      requires Fit(t) && Settled(t) && t.autoexec == 0 && count <= |t.data|
      modifies this
      ensures t == old(t) && ws == t.data[..count]
    {
      ws := [];
      for i := 0 to count
        invariant t == old(t) && ws == t.data[..i]
      {
        var v, _ := Read(DATA0 + i, 0);
        ws := ws + [v];
      }
    }

    // Wait for not busy; the status word that says so.
    method AwaitIdle(ghost n: nat) returns (abstractcs: Word)
      requires Fit(t) && t.request.NoRequest? && Settled(Outcome(t, n))
      modifies this
      ensures t == old(Outcome(t, n))
      ensures GetField(abstractcs, CMDERR) == Code(t.error)
    {
      ghost var left := n;
      var polling := true;
      abstractcs := 0;
      while polling
        invariant Fit(t) && t.request.NoRequest? && Outcome(t, left) == old(Outcome(t, n))
        invariant !polling ==> !Busy(t) && GetField(abstractcs, CMDERR) == Code(t.error)
        decreases polling, Distance(t, left)
      {
        var v: nat;
        v, left := Read(ABSTRACTCS, left);
        abstractcs := v as Word;
        PolledStatus(t, abstractcs);
        polling := abstractcs & BUSY != 0;
      }
    }

    // The command must come to an end; n is the length of its program's run.
    method RunAbstractCommand(command: Word, program: seq<Word>, dataIn: seq<nat>, ghost c: Command, ghost n: nat,
        ghost after: Target)
      returns (cmderr: Word, data: seq<nat>)
      requires c == ReadCommand(command) && c.Access? && RunEnds(t, c, program, dataIn, n, after)
      modifies this
      ensures t == after
      ensures cmderr == Code(t.error)
      ensures |data| == |dataIn| <= |t.data|
      ensures data == if c.transfer && !c.write then t.data[..|dataIn|] else dataIn
    {
      FieldTest(command);
      WriteProgram(program);
      if GetField(command, WRITE) != 0 && GetField(command, TRANSFER) != 0 {
        WriteData(dataIn);
      }
      assert t == Equipped(old(t), c, program, dataIn);
      Issue(command, c, n, after);
      var abstractcs := AwaitIdle(n);
      data := dataIn;
      if GetField(command, WRITE) == 0 && GetField(command, TRANSFER) != 0 {
        data := ReadData(|dataIn|);
      }
      cmderr := GetField(abstractcs, CMDERR);
    }

    method Issue(command: Word, ghost c: Command, ghost n: nat, ghost after: Target)
      requires Waiting(t) && c == ReadCommand(command) && Ends(t, c, n, after)
      modifies this
      ensures Fit(t) && t.request.NoRequest? && Outcome(t, n) == after
    {
      OverTheBus(command);
      ghost var lag := Write(COMMAND, command as nat);
      WriteCommand(old(t), command, lag);
    }

    // An error is reported and cleared, and the simulation goes on.
    method Die(cmderr: Word)
      requires Fit(t) && Settled(t)
      modifies this
      ensures t == old(t).(error := NoError)
    {
      ghost var lag := Write(ABSTRACTCS, CMDERR as nat);
      OverTheBus(CMDERR);
      ClearError(old(t), CMDERR as nat, lag);
    }

    method RunAcOrDie(command: Word, program: seq<Word>, dataIn: seq<nat>, ghost c: Command, ghost n: nat,
        ghost after: Target)
      returns (data: seq<nat>)
      requires c == ReadCommand(command) && c.Access? && RunEnds(t, c, program, dataIn, n, after)
      modifies this
      ensures t == after.(error := NoError)
      ensures after.error.NoError? ==> t == after
      ensures |data| == |dataIn| <= |t.data|
      ensures data == if c.transfer && !c.write then t.data[..|dataIn|] else dataIn
    {
      var cmderr: Word;
      cmderr, data := RunAbstractCommand(command, program, dataIn, c, n, after);
      CodeZero(t.error);
      if cmderr != 0 {
        Die(cmderr);
      }
    }

    // ---------- Registers ----------

    // The command word for an access to a general-purpose register.
    method AccessWord(flags: Word, regno: Word, ghost c: Command) returns (command: Word)
      requires flags & (TRANSFER | WRITE | POSTEXEC) == flags && (xlen == 32 || xlen == 64) && regno < 32
      requires c == Access(xlen, true, Index(regno), flags & TRANSFER != 0, flags & WRITE != 0, flags & POSTEXEC != 0)
      ensures ReadCommand(command) == c
    {
      command := flags | SizeField(xlen) | RegnoField(regno);
      CommandMeans(flags, xlen, regno);
    }

    method SaveReg(regno: Word) returns (v: nat)
      requires Shape() && Waiting(t) && regno < 32
      modifies this
      ensures Shape() && Waiting(t) && OnlyScratch(t, old(t))
      ensures t.cpu == old(t).cpu && t.progbuf == old(t).progbuf
      ensures v == t.cpu.regs[Index(regno)]
    {
      ghost var c := Access(xlen, true, Index(regno), true, false, false);
      var command := AccessWord(TRANSFER, regno, c);
      ghost var after := SavedRegister(t, Index(regno));
      var data := RunAcOrDie(command, [], Blank(xlen), c, 0, after);
      assert t == after;
      v := Joined(data);
    }

    method RestoreReg(regno: Word, v: nat)
      requires Shape() && Waiting(t) && regno < 32 && v < Limit(xlen)
      modifies this
      ensures Shape() && Waiting(t) && OnlyScratch(t, old(t))
      ensures t.cpu == SetReg(old(t).cpu, Index(regno), v) && t.progbuf == old(t).progbuf
    {
      ghost var after := RestoredRegister(t, Index(regno), v);
      SetRegister(regno, v, [], false, 0, after);
    }

    // Try to read S0 in a given width; afterwards the error is cleared.
    method Probe(size: nat) returns (works: bool)
      requires Shape() && Waiting(t) && (size == 32 || size == 64 || size == 128)
      modifies this
      ensures Shape() && Waiting(t) && t.cpu == old(t).cpu
      ensures works <==> size == t.cpu.xlen
    {
      ghost var c := Access(size, true, 8, true, false, false);
      var command := TRANSFER | SizeField(size) | RegnoField(S0);
      CommandMeans(TRANSFER, size, S0);
      ghost var after := Probed(t, size);
      var cmderr, _ := RunAbstractCommand(command, [], [], c, 0, after);
      CodeZero(t.error);
      works := cmderr == 0;
      if !works {
        Die(cmderr);
      }
    }

    // Which width the hart has, from the widest down; none of them is the
    // source's exception.
    method GetXlen() returns (width: nat)
      requires Shape() && Waiting(t)
      modifies this
      ensures Shape() && Waiting(t) && t.cpu == old(t).cpu
      ensures width == t.cpu.xlen
    {
      var works := Probe(128);
      works := Probe(64);
      if works {
        return 64;
      }
      works := Probe(32);
      width := 32;
    }

    // Load a program, give a register a value and perhaps run the program.
    method SetRegister(regno: Word, v: nat, program: seq<Word>, postexec: bool, ghost n: nat, ghost after: Target)
      requires Shape() && Waiting(t) && regno < 32 && v < Limit(xlen)
      requires SetEnds(t, Index(regno), v, program, postexec, n, after)
      requires after.error.NoError? && OnlyScratch(after, t)
      modifies this
      ensures Shape() && t == after
    {
      ghost var c := Access(xlen, true, Index(regno), true, true, postexec);
      var command := AccessWord(if postexec then TRANSFER | WRITE | POSTEXEC else TRANSFER | WRITE, regno, c);
      var _ := RunAcOrDie(command, program, Words(v, xlen / 8), c, n, after);
    }

    // ---------- Chunks ----------

    // Waiting for the host, whether the hart is halted or not.
    ghost predicate Available()
      reads this
    {
      Valid() && Settled(t) && t.autoexec == 0 && t.error.NoError?
    }

    method StartReading(program: seq<Word>, taddr: nat)
      requires Shape() && Waiting(t) && WordAt(t.cpu, taddr)
      requires |program| <= |t.progbuf| && Decoded(program) == ReadCode(xlen)
      modifies this
      ensures Shape() && Waiting(t) && OnlyScratch(t, old(t)) && Programmed(t, ReadCode(xlen))
      ensures t.cpu == Using(old(t).cpu, Wrapped(xlen, taddr + xlen / 8), Value(WordOf(old(t).cpu, taddr)))
    {
      ghost var after := ReadStarted(t, program, taddr);
      ghost var steps := 3;
      SetRegister(S0, taddr, program, true, steps, after);
    }

    method ReadWord(more: bool, ghost n: nat, ghost end: Cpu) returns (bs: seq<Byte>)
      requires Shape() && Waiting(t)
      requires if more then RunN(t.cpu, Decoded(t.progbuf), 0, n) == Run(end, Done) else n == 0 && end == t.cpu
      modifies this
      ensures Shape() && Waiting(t) && OnlyScratch(t, old(t)) && t.progbuf == old(t).progbuf
      ensures t.cpu == end
      ensures bs == BytesOfWords(Words(old(t).cpu.regs[9], Width(xlen)))
    {
      ghost var c := Access(xlen, true, 9, true, false, more);
      var command := AccessWord(if more then TRANSFER | POSTEXEC else TRANSFER, S1, c);
      ghost var after := NextWordRead(t, more, n, end);
      var data := RunAcOrDie(command, [], Blank(xlen), c, n, after);
      assert t == after;
      bs := BytesOfWords(data);
    }

    method Copy(dst: array<Byte>, at: nat, bs: seq<Byte>)
      requires at + |bs| <= dst.Length
      modifies dst
      ensures dst[..] == Splice(old(dst[..]), at, bs)
    {
      for k := 0 to |bs|
        invariant dst[..] == Splice(old(dst[..]), at, bs[..k])
      {
        dst[at + k] := bs[k];
      }
      assert bs[..|bs|] == bs;
    }

    // Halt the hart and remember S0 and S1.
    method Seize() returns (s0: nat, s1: nat)
      requires Available()
      modifies this
      ensures Shape() && Waiting(t) && t.cpu == old(t).cpu
      ensures s0 == t.cpu.regs[8] && s1 == t.cpu.regs[9]
    {
      Halt();
      s0 := SaveReg(S0);
      s1 := SaveReg(S1);
    }

    // Put S0 and S1 back and let the hart go.
    method Release(s0: nat, s1: nat, ghost t0: Target)
      requires Shape() && Holding(t, t0) && s0 == t0.cpu.regs[8] && s1 == t0.cpu.regs[9]
      modifies this
      ensures Available() && !t.halted && t.cpu == t0.cpu.(mem := old(t).cpu.mem)
    {
      Restored(t0.cpu.(mem := t.cpu.mem), t.cpu.regs[8], t.cpu.regs[9]);
      RestoreReg(S0, s0);
      RestoreReg(S1, s1);
      Resume();
    }

    // The start of read_chunk: the first word comes up in S1.
    method BeginReading(taddr: nat, ghost n: nat)
      requires Shape() && Waiting(t) && ChunkAt(t.cpu, taddr, n) && n > 0
      modifies this
      ensures Shape() && Reading(t, old(t), old(t).cpu, taddr, n, 0)
    {
      WordOfChunk(t.cpu, taddr, n, 0);
      ReadProgramDecodes(xlen);
      StartReading(ReadProgram(xlen), taddr);
    }

    // One turn of read_chunk's loop: the next word is always in S1.
    method ReadNext(taddr: nat, n: nat, i: nat, dst: array<Byte>, at: nat,
        ghost t0: Target, ghost c0: Cpu, ghost d0: seq<Byte>)
      requires Shape() && Reading(t, t0, c0, taddr, n, i) && i < n
      requires |d0| == dst.Length && at + Extent(xlen, n) <= dst.Length && c0.xlen == xlen
      requires dst[..] == Copied(d0, at, c0, taddr, i)
      modifies this, dst
      ensures Shape() && Reading(t, t0, c0, taddr, n, i + 1)
      ensures dst[..] == Copied(d0, at, c0, taddr, i + 1)
    {
      ghost var steps, end := ReadingGoesOn(t.cpu, c0, Decoded(t.progbuf), taddr, n, i);
      var word := ReadWord(i + 1 < n, steps, end);
      CopyNext(taddr, n, i, dst, at, word, c0, d0);
    }

    method CopyNext(taddr: nat, n: nat, i: nat, dst: array<Byte>, at: nat, word: seq<Byte>,
        ghost c0: Cpu, ghost d0: seq<Byte>)
      requires ChunkAt(c0, taddr, n) && i < n && WordAt(c0, taddr + Extent(xlen, i)) && c0.xlen == xlen
      requires word == WordOf(c0, taddr + Extent(xlen, i))
      requires |d0| == dst.Length && at + Extent(xlen, n) <= dst.Length
      requires dst[..] == Copied(d0, at, c0, taddr, i)
      modifies dst
      ensures dst[..] == Copied(d0, at, c0, taddr, i + 1)
    {
      ExtentIsProduct(xlen, i);
      CopiedWord(d0, at, c0, taddr, n, i);
      Copy(dst, at + i * (xlen / 8), word);
    }

    method ReadWords(taddr: nat, n: nat, dst: array<Byte>, at: nat, ghost t0: Target, ghost c0: Cpu)
      requires Shape() && Reading(t, t0, c0, taddr, n, 0) && at + Extent(xlen, n) <= dst.Length && c0.xlen == xlen
      modifies this, dst
      ensures Shape() && Reading(t, t0, c0, taddr, n, n)
      ensures dst[..] == Copied(old(dst[..]), at, c0, taddr, n)
    {
      SpliceNothing(dst[..], at);
      for i := 0 to n
        invariant Shape() && Reading(t, t0, c0, taddr, n, i)
        invariant dst[..] == Copied(old(dst[..]), at, c0, taddr, i)
      {
        ReadNext(taddr, n, i, dst, at, t0, c0, old(dst[..]));
      }
    }

    method ReadChunk(taddr: nat, len: nat, dst: array<Byte>, at: nat)
      requires Available()
      requires Aligned(xlen, taddr) && Aligned(xlen, len) && 0 < len <= 4096
      requires taddr + len <= |t.cpu.mem| && at + len <= dst.Length
      modifies this, dst
      ensures Available() && t.cpu == old(t.cpu)
      ensures dst[..] == Splice(old(dst[..]), at, t.cpu.mem[taddr..taddr + len])
    {
      var s0, s1 := Seize();
      ghost var t0 := t;
      var n := len * 8 / xlen;
      WholeWords(xlen, len);
      BeginReading(taddr, n);
      ReadWords(taddr, n, dst, at, t0, t0.cpu);
      ReadingHolds(t, t0, taddr, n, n);
      Release(s0, s1, t0);
    }

    // The program and S0, with nothing stored yet.
    method BeginWriting(program: seq<Word>, taddr: nat, ghost n: nat, ghost bs: seq<Byte>)
      requires Shape() && Waiting(t) && ChunkAt(t.cpu, taddr, n) && n > 0 && |bs| == Extent(xlen, n)
      requires |program| <= |t.progbuf| && Decoded(program) == WriteCode(xlen)
      modifies this
      ensures Shape() && Storing(t, old(t), taddr, bs, n, 0) && t.autoexec == 0
    {
      ghost var after := StoringBegins(t, t, program, taddr, bs, n);
      SetRegister(S0, taddr, program, false, 0, after);
    }

    // S1 gets a value and the program in the buffer runs.
    method GiveS1(v: nat, ghost n: nat, ghost after: Target)
      requires Shape() && Waiting(t) && v < Limit(xlen) && SetEnds(t, 9, v, [], true, n, after)
      requires after.error.NoError? && OnlyScratch(after, t)
      modifies this
      ensures t == after
    {
      SetRegister(S1, v, [], true, n, after);
    }

    // The first word goes out as a command of its own.
    method WriteFirst(word: seq<Byte>, ghost t0: Target, ghost taddr: nat, ghost bs: seq<Byte>, ghost n: nat)
      requires Shape() && Storing(t, t0, taddr, bs, n, 0) && n > 0 && t.autoexec == 0
      requires word == NextWord(xlen, bs, 0) && |word| == xlen / 8
      modifies this
      ensures Shape() && Storing(t, t0, taddr, bs, n, 1) && t.autoexec == 0
    {
      ghost var v, after := StoringGoesOn(t, t0, taddr, bs, n, 0);
      var data := WordsOfBytes(word);
      assert Joined(data) == v by {
        WordsOfValue(word);
      }
      GiveS1(Joined(data), 3, after);
    }

    method SetAuto(w: Word)
      requires Fit(t) && Settled(t) && w & 0xffff0fff == w
      modifies this
      ensures t == old(t).(autoexec := w)
    {
      OverTheBus(w);
      ghost var lag := Write(ABSTRACTAUTO, w as nat);
      WriteAuto(old(t), w as nat, w, lag);
    }

    method PutHighWord(v: nat)
      requires Fit(t) && Settled(t) && t.autoexec == 1 && |t.data| > 1 && v < 0x1_0000_0000
      modifies this
      ensures t == old(t).(data := old(t).data[1 := v])
    {
      ghost var lag := Write(DATA0 + 1, v);
      WriteHighWord(old(t), v, lag);
    }

    // The data words, the triggering one last.
    method PutWords(data: seq<nat>, ghost c: Command, ghost n: nat, ghost after: Target)
      requires Shape() && Idle(t) && t.autoexec == 1 && t.lastCommand == c && c.Access? && c.write && c.transfer
      requires |data| == xlen / 32 && WordsFit(data)
      requires Fit(Equipped(t, c, [], data)) && Ends(Equipped(t, c, [], data), c, n, after)
      modifies this
      ensures Fit(t) && t.request.NoRequest? && Outcome(t, n) == after
    {
      if xlen == 64 {
        PutHighWord(data[1]);
      }
      ghost var high := t;
      ghost var lag := Write(DATA0, data[0]);
      DataWordsGo(old(t), c, data, lag);
      assert t == Start(Equipped(old(t), c, [], data), c, lag);
    }

    method AutoOrDie(data: seq<nat>, ghost c: Command, ghost n: nat, ghost after: Target)
      requires Shape() && Idle(t) && t.autoexec == 1 && t.lastCommand == c && c.Access? && c.write && c.transfer
      requires |data| == xlen / 32 && WordsFit(data)
      requires Fit(Equipped(t, c, [], data)) && Ends(Equipped(t, c, [], data), c, n, after)
      modifies this
      ensures t == after.(error := NoError)
      ensures after.error.NoError? ==> t == after
    {
      PutWords(data, c, n, after);
      var abstractcs := AwaitIdle(n);
      CodeZero(t.error);
      if GetField(abstractcs, CMDERR) != 0 {
        Die(GetField(abstractcs, CMDERR));
      }
    }

    // A later word: the data registers alone run the store again.
    method WriteNext(word: seq<Byte>, ghost i: nat, ghost t0: Target, ghost taddr: nat, ghost bs: seq<Byte>,
        ghost n: nat)
      requires Shape() && Storing(t, t0, taddr, bs, n, i) && 0 < i < n && t.autoexec == 1
      requires word == NextWord(xlen, bs, i) && |word| == xlen / 8
      modifies this
      ensures Shape() && Storing(t, t0, taddr, bs, n, i + 1) && t.autoexec == 1
    {
      ghost var c := StoreCommand(xlen);
      ghost var v, after := StoringGoesOn(t, t0, taddr, bs, n, i);
      WordsOfValue(word);
      AutoOrDie(WordsOfBytes(word), c, 3, after);
    }

    // Copy a word's worth of bytes out of the buffer.
    method WordFrom(src: array<Byte>, at: nat, i: nat, ghost n: nat) returns (word: seq<Byte>)
      requires (xlen == 32 || xlen == 64) && i < n && at + Extent(xlen, n) <= src.Length
      ensures Extent(xlen, i + 1) <= Extent(xlen, n)
      ensures word == NextWord(xlen, src[at..at + Extent(xlen, n)], i) && |word| == xlen / 8
    {
      ExtentIsProduct(xlen, i);
      var start := at + i * (xlen / 8);
      word := src[start..start + xlen / 8];
      SliceInSlice(src[..], at, at + Extent(xlen, n), Extent(xlen, i), Extent(xlen, i + 1));
      assert src[..][at..at + Extent(xlen, n)] == src[at..at + Extent(xlen, n)];
    }

    // Turn rerunning on or off between words.
    method SwitchAuto(w: Word, ghost t0: Target, ghost taddr: nat, ghost bs: seq<Byte>, ghost n: nat, ghost i: nat)
      requires Shape() && Storing(t, t0, taddr, bs, n, i) && w & 0xffff0fff == w
      modifies this
      ensures Shape() && Storing(t, t0, taddr, bs, n, i) && t.autoexec == w
    {
      StoringWithAuto(t, t0, taddr, bs, n, i, w);
      SetAuto(w);
    }

    // The loop of write_chunk.
    method WriteWords(src: array<Byte>, at: nat, n: nat, ghost t0: Target, ghost taddr: nat, ghost bs: seq<Byte>)
      requires Valid() && n > 0 && at + Extent(xlen, n) <= src.Length && bs == src[at..at + Extent(xlen, n)]
      requires Storing(t, t0, taddr, bs, n, 1) && t.autoexec == 0
      modifies this
      ensures Shape() && Storing(t, t0, taddr, bs, n, n) && t.autoexec == 0
    {
      for i := 1 to n
        invariant Shape() && Storing(t, t0, taddr, bs, n, i)
        invariant t.autoexec == if i == 1 then 0 else 1
      {
        if i == 1 {
          SwitchAuto(1, t0, taddr, bs, n, i);
        }
        var word := WordFrom(src, at, i, n);
        WriteNext(word, i, t0, taddr, bs, n);
      }
      if n > 1 {
        SwitchAuto(0, t0, taddr, bs, n, n);
      }
    }

    method WriteAll(taddr: nat, src: array<Byte>, at: nat, n: nat, ghost t0: Target, ghost bs: seq<Byte>)
      requires Shape() && Waiting(t) && t == t0 && ChunkAt(t.cpu, taddr, n) && n > 0
      requires at + Extent(xlen, n) <= src.Length && bs == src[at..at + Extent(xlen, n)]
      modifies this
      ensures Shape() && Holding(t, t0) && t.cpu.mem == Splice(t0.cpu.mem, taddr, bs)
    {
      DebugPrograms.WriteProgramDecodes(xlen);
      BeginWriting(DebugPrograms.WriteProgram(xlen), taddr, n, bs);
      var word := WordFrom(src, at, 0, n);
      WriteFirst(word, t0, taddr, bs, n);
      WriteWords(src, at, n, t0, taddr, bs);
      StoringHolds(t, t0, taddr, bs, n);
    }

    method WriteChunk(taddr: nat, len: nat, src: array<Byte>, at: nat)
      requires Available()
      requires Aligned(xlen, taddr) && Aligned(xlen, len) && 0 < len <= 4096
      requires taddr + len <= |t.cpu.mem| && at + len <= src.Length
      modifies this
      ensures Available() && t.cpu == old(t.cpu).(mem := Splice(old(t.cpu.mem), taddr, src[at..at + len]))
    {
      var s0, s1 := Seize();
      ghost var t0 := t;
      ghost var bs := src[at..at + len];
      var n := len * 8 / xlen;
      WholeWords(xlen, len);
      WriteAll(taddr, src, at, n, t0, bs);
      Release(s0, s1, t0);
    }

    method PointToClear(taddr: nat, ghost k: nat)
      requires Shape() && Waiting(t) && ChunkAt(t.cpu, taddr, k) && k > 0
      modifies this
      ensures Shape() && Holding(t, old(t)) && t.cpu.mem == old(t).cpu.mem && t.cpu.regs[8] == taddr
    {
      WordOfChunk(t.cpu, taddr, k, 0);
      WordFits(t.cpu, taddr);
      ghost var after := PointerSet(t, [], taddr);
      PointerHeld(after, t, taddr);
      SetRegister(S0, taddr, [], false, 0, after);
    }

    method RunClear(program: seq<Word>, ghost taddr: nat, s1: nat, ghost k: nat, ghost t0: Target)
      requires Shape() && Holding(t, t0) && t.cpu.mem == t0.cpu.mem
      requires |program| <= |t.progbuf| && Decoded(program) == ClearCode(xlen)
      requires ChunkAt(t.cpu, taddr, k) && k > 0 && t.cpu.regs[8] == taddr
      requires s1 == Wrapped(xlen, taddr + Extent(xlen, k))
      modifies this
      ensures Shape() && ClearedTo(t, t0, taddr, k)
    {
      ghost var after := Cleared(t, t0, program, taddr, k, s1);
      ghost var steps := 3 * k + 1;
      SetRegister(S1, s1, program, true, steps, after);
    }

    method AssembleClear() returns (program: seq<Word>)
      requires xlen == 32 || xlen == 64
      ensures |program| == 4 && Decoded(program) == ClearCode(xlen)
    {
      program := ClearProgram(xlen);
      ClearProgramDecodes(xlen);
    }

    method ClearChunk(taddr: nat, len: nat)
      requires Available()
      requires Aligned(xlen, taddr) && Aligned(xlen, len) && 0 < len
      requires taddr + len <= |t.cpu.mem|
      modifies this
      ensures Available() && t.cpu == old(t.cpu).(mem := Splice(old(t.cpu.mem), taddr, Zeros(len)))
    {
      var s0, s1 := Seize();
      ghost var t0 := t;
      ghost var k := len * 8 / xlen;
      WholeWords(xlen, len);
      PointToClear(taddr, k);
      var program := AssembleClear();
      // The address just past the range, in as many bits as a register has.
      RunClear(program, taddr, Wrapped(xlen, taddr + len), k, t0);
      Release(s0, s1, t0);
    }
  }
}
