/**
  The words tb/dpi/fesvr/dtm.cc writes to the debug module's control registers,
  what the module makes of them, and where each abstract command the host
  issues leaves the target.
*/
module AbstractCommands {
  import opened Fields
  import opened Encoding
  import opened Bytes
  import opened Hart
  import opened DebugModule
  import opened DebugPrograms

  // ---------- Register fields ----------

  function GetField(reg: Word, mask: Word): Word
    requires mask & !(mask << 1) != 0
  {
    (reg & mask) / (mask & !(mask << 1))
  }

  function SetField(reg: Word, mask: Word, v: Word): Word {
    (reg & !mask) | ((v * (mask & !(mask << 1))) & mask)
  }

  lemma StatusRead(busy: bool, cmderr: Word, progsize: Word, datacount: Word)
    requires cmderr < 8
    ensures var w := AbstractStatus(busy, cmderr, progsize, datacount);
            (w & BUSY != 0 <==> busy) && GetField(w, CMDERR) == cmderr
  {
  }

  lemma HartStatusRead(halted: bool, resumeack: bool)
    ensures var w := HartStatus(halted, resumeack);
            (GetField(w, ALLHALTED) != 0 <==> halted) && (GetField(w, ALLRESUMEACK) != 0 <==> resumeack)
  {
  }

  // The words written to dmcontrol to ask a hart for something, and to stop
  // asking.
  function AskWord(request: Word, hart: Word): Word {
    SetField(request | DMACTIVE, HARTSEL, hart)
  }

  predicate Selects(w: Word, hart: Word) {
    w & DMACTIVE != 0 && (w >> 16) & 0x3ff == hart
  }

  lemma AskWordMeans(hart: Word)
    requires hart < 1024
    ensures Selects(AskWord(HALTREQ, hart), hart) && AskWord(HALTREQ, hart) & HALTREQ != 0
    ensures Selects(AskWord(HALTREQ, hart) & !HALTREQ, hart)
    ensures (AskWord(HALTREQ, hart) & !HALTREQ) & (HALTREQ | RESUMEREQ) == 0
    ensures Selects(AskWord(RESUMEREQ, hart), hart) && AskWord(RESUMEREQ, hart) & HALTREQ == 0
    ensures AskWord(RESUMEREQ, hart) & RESUMEREQ != 0
    ensures Selects(AskWord(RESUMEREQ, hart) & !RESUMEREQ, hart)
    ensures (AskWord(RESUMEREQ, hart) & !RESUMEREQ) & (HALTREQ | RESUMEREQ) == 0
  {
  }

  function SizeField(xlen: nat): Word {
    (if xlen == 128 then 4 else if xlen == 64 then 3 else 2) << 20
  }

  function RegnoField(regno: Word): Word {
    0x1000 | regno
  }

  lemma CommandMeans(flags: Word, xlen: nat, regno: Word)
    requires flags & (TRANSFER | WRITE | POSTEXEC) == flags
    requires (xlen == 32 || xlen == 64 || xlen == 128) && regno < 32
    ensures ReadCommand(flags | SizeField(xlen) | RegnoField(regno))
         == Access(xlen, true, Index(regno), flags & TRANSFER != 0, flags & WRITE != 0, flags & POSTEXEC != 0)
  {
  }

  // Words survive the trip over the bus.
  lemma OverTheBus(w: Word)
    ensures (w as nat) as Word == w
  {
  }

  lemma FieldTest(w: Word)
    ensures GetField(w, WRITE) != 0 <==> w & WRITE != 0
    ensures GetField(w, TRANSFER) != 0 <==> w & TRANSFER != 0
  {
  }

  // Nothing is running; at most a halt or a resume is pending.
  predicate Quietly(t: Target) {
    t.exec.Quiet?
  }

  lemma PolledHalt(t: Target)
    requires Fit(t)
    ensures GetField(DmiValue(t, DMSTATUS) as Word, ALLHALTED) == 0 <==> !t.halted
    ensures GetField(DmiValue(t, DMSTATUS) as Word, ALLRESUMEACK) == 0 <==> !t.resumeack
  {
    HartStatusRead(t.halted, t.resumeack);
    OverTheBus(HartStatus(t.halted, t.resumeack));
  }

  lemma PolledStatus(t: Target, w: Word)
    requires Fit(t) && w == DmiValue(t, ABSTRACTCS) as Word
    ensures w & BUSY != 0 <==> Busy(t)
    ensures GetField(w, CMDERR) == Code(t.error)
  {
    var progsize, datacount := |t.progbuf| as Word, |t.data| as Word;
    StatusArrives(t, w, progsize, datacount);
    StatusTells(w, Busy(t), t.error, progsize, datacount);
  }

  lemma StatusArrives(t: Target, w: Word, progsize: Word, datacount: Word)
    requires Fit(t) && w == DmiValue(t, ABSTRACTCS) as Word
    requires progsize == |t.progbuf| as Word && datacount == |t.data| as Word
    ensures w == AbstractStatus(Busy(t), Code(t.error), progsize, datacount)
  {
    OverTheBus(AbstractStatus(Busy(t), Code(t.error), progsize, datacount));
  }

  lemma StatusTells(w: Word, busy: bool, e: Error, progsize: Word, datacount: Word)
    requires w == AbstractStatus(busy, Code(e), progsize, datacount)
    ensures w & BUSY != 0 <==> busy
    ensures GetField(w, CMDERR) == Code(e)
  {
    StatusRead(busy, Code(e), progsize, datacount);
  }

  lemma HaltAsked(t: Target, lag: nat)
    requires t.hart < 1024 && |t.data| <= 12 && |t.progbuf| <= 16
    ensures DmiWrite(t, DMCONTROL, AskWord(HALTREQ, t.hart) as nat, lag) == t.(request := HaltIn(lag))
  {
    AskWordMeans(t.hart);
    OverTheBus(AskWord(HALTREQ, t.hart));
  }

  lemma HaltDropped(t: Target, lag: nat)
    requires t.hart < 1024 && |t.data| <= 12 && |t.progbuf| <= 16 && !t.request.ResumeIn?
    ensures DmiWrite(t, DMCONTROL, (AskWord(HALTREQ, t.hart) & !HALTREQ) as nat, lag) == t.(request := NoRequest)
  {
    AskWordMeans(t.hart);
    OverTheBus(AskWord(HALTREQ, t.hart) & !HALTREQ);
  }

  lemma ResumeAsked(t: Target, lag: nat)
    requires t.hart < 1024 && |t.data| <= 12 && |t.progbuf| <= 16
    ensures DmiWrite(t, DMCONTROL, AskWord(RESUMEREQ, t.hart) as nat, lag)
         == t.(request := ResumeIn(lag), resumeack := false)
  {
    AskWordMeans(t.hart);
    OverTheBus(AskWord(RESUMEREQ, t.hart));
  }

  lemma ResumeDropped(t: Target, lag: nat)
    requires t.hart < 1024 && |t.data| <= 12 && |t.progbuf| <= 16 && t.request.NoRequest?
    ensures DmiWrite(t, DMCONTROL, (AskWord(RESUMEREQ, t.hart) & !RESUMEREQ) as nat, lag) == t
  {
    AskWordMeans(t.hart);
    OverTheBus(AskWord(RESUMEREQ, t.hart) & !RESUMEREQ);
  }

  lemma ReadChangesNothing(t: Target, addr: nat, lag: nat)
    requires Fit(t) && (addr == DMSTATUS || addr == ABSTRACTCS || (Settled(t) && t.autoexec == 0))
    ensures DmiRead(t, addr, lag) == t
  {
  }

  lemma CodeZero(e: Error)
    ensures Code(e) == 0 <==> e.NoError?
  {
  }

  // ---------- Loading a command's program and data ----------

  function Equipped(t: Target, c: Command, program: seq<Word>, ws: seq<nat>): Target
    requires |program| <= |t.progbuf| && |ws| <= |t.data|
  {
    var withProgram := t.(progbuf := Splice(t.progbuf, 0, program));
    if c.Access? && c.write && c.transfer then withProgram.(data := Splice(t.data, 0, ws)) else withProgram
  }

  // A halted hart, and a module with nothing to do and nothing to report.
  ghost predicate Idle(t: Target) {
    Fit(t) && Settled(t) && t.halted && t.error.NoError?
  }

  // Waiting for a command, which nothing but a write of the command register
  // will start.
  ghost predicate Waiting(t: Target) {
    Idle(t) && t.autoexec == 0
  }

  ghost predicate WordsFit(ws: seq<nat>) {
    forall i :: 0 <= i < |ws| ==> ws[i] < 0x1_0000_0000
  }

  // A command given with a program and data words ends in `after`.
  ghost predicate RunEnds(t: Target, c: Command, program: seq<Word>, data: seq<nat>, n: nat, after: Target) {
    && Waiting(t) && |program| <= |t.progbuf| && |data| <= |t.data| && WordsFit(data)
    && Fit(Equipped(t, c, program, data)) && Ends(Equipped(t, c, program, data), c, n, after)
  }

  // The command that loads a program, sets register r to v and perhaps runs the
  // program ends in `after`.
  ghost predicate SetEnds(t: Target, r: Reg, v: nat, program: seq<Word>, postexec: bool, n: nat, after: Target) {
    var c := Access(t.cpu.xlen, true, r, true, true, postexec);
    var ws := Words(v, Width(t.cpu.xlen));
    && |program| <= |t.progbuf| && |ws| <= |t.data| && WordsFit(ws)
    && Fit(Equipped(t, c, program, ws)) && Ends(Equipped(t, c, program, ws), c, n, after)
  }

  // The host's data array before a read.
  function Blank(xlen: nat): seq<nat> {
    if xlen == 64 then [0, 0] else [0]
  }

  lemma EquippedForReading(t: Target, c: Command, ws: seq<nat>)
    requires Fit(t) && |ws| <= |t.data| && c.Access? && !c.write
    ensures Equipped(t, c, [], ws) == t
  {
    SpliceNothing(t.progbuf, 0);
  }

  lemma EquippedForWriting(t: Target, c: Command, v: nat)
    requires Fit(t) && v < Limit(t.cpu.xlen) && c.Access? && c.write && c.transfer
    ensures WordsFit(Words(v, Width(t.cpu.xlen))) && |Words(v, Width(t.cpu.xlen))| <= |t.data|
    ensures Equipped(t, c, [], Words(v, Width(t.cpu.xlen))) == SetArgument(t, v)
    ensures Fit(SetArgument(t, v))
  {
    SpliceNothing(t.progbuf, 0);
    SetArgumentFits(t, v);
    if t.cpu.xlen == 64 {
      assert v / 0x1_0000_0000 < 0x1_0000_0000;
    }
  }

  lemma SavedRegister(t: Target, r: Reg) returns (after: Target)
    requires Waiting(t)
    ensures var c := Access(t.cpu.xlen, true, r, true, false, false);
            RunEnds(t, c, [], Blank(t.cpu.xlen), 0, after)
    ensures Waiting(after) && OnlyScratch(after, t) && after.cpu == t.cpu && after.progbuf == t.progbuf
    ensures |after.data| >= t.cpu.xlen / 32 && Joined(after.data[..t.cpu.xlen / 32]) == t.cpu.regs[r]
  {
    var c := Access(t.cpu.xlen, true, r, true, false, false);
    EquippedForReading(t, c, Blank(t.cpu.xlen));
    ReadRegister(t, r);
    SetArgumentFits(t, t.cpu.regs[r]);
    ArgumentOf(t, t.cpu.regs[r]);
    FinishedEnds(t, c, 0);
    after := Finished(t, c, 0);
  }

  lemma RestoredRegister(t: Target, r: Reg, v: nat) returns (after: Target)
    requires Waiting(t) && v < Limit(t.cpu.xlen)
    ensures SetEnds(t, r, v, [], false, 0, after)
    ensures Waiting(after) && OnlyScratch(after, t)
    ensures after.cpu == SetReg(t.cpu, r, v) && after.progbuf == t.progbuf
  {
    var c := Access(t.cpu.xlen, true, r, true, true, false);
    EquippedForWriting(t, c, v);
    WriteRegister(SetArgument(t, v), r);
    ArgumentOf(t, v);
    FinishedEnds(SetArgument(t, v), c, 0);
    after := Finished(SetArgument(t, v), c, 0);
  }

  lemma OnlyScratchAgain(a: Target, b: Target, c: Target)
    requires OnlyScratch(a, b) && OnlyScratch(b, c)
    ensures OnlyScratch(a, c)
  {
  }

  // Asking for S0 in some width works for the hart's own width only.
  lemma Probed(t: Target, size: nat) returns (after: Target)
    requires Waiting(t)
    ensures var c := Access(size, true, 8, true, false, false);
            Equipped(t, c, [], []) == t && Ends(t, c, 0, after)
    ensures after.error.NoError? <==> size == t.cpu.xlen
    ensures OnlyScratch(after.(error := NoError), t) && Waiting(after.(error := NoError)) && after.cpu == t.cpu
  {
    var c := Access(size, true, 8, true, false, false);
    EquippedForReading(t, c, []);
    if size == t.cpu.xlen {
      ReadRegister(t, 8);
      SetArgumentFits(t, t.cpu.regs[8]);
    } else {
      assert Finished(t, c, 0) == Fail(t, NotSupported).(lastCommand := c);
    }
    FinishedEnds(t, c, 0);
    after := Finished(t, c, 0);
  }

  // ---------- The commands of a chunk ----------

  // A word of memory that a program can reach.
  ghost predicate WordAt(c: Cpu, a: nat) {
    Wf(c) && Aligned(c.xlen, a) && a + Width(c.xlen) <= |c.mem|
  }

  ghost predicate Programmed(t: Target, code: seq<Instr>) {
    ValidCode(code) && code <= Decoded(t.progbuf)
  }

  lemma DecodedPrefix(words: seq<Word>, program: seq<Word>)
    requires |program| <= |words|
    ensures Decoded(program) <= Decoded(Splice(words, 0, program))
  {
    assert forall i :: 0 <= i < |program| ==> Splice(words, 0, program)[i] == program[i];
  }

  // S0 is set, the program loaded, and nothing run yet.
  lemma PointerSet(t: Target, program: seq<Word>, a: nat) returns (after: Target)
    requires Waiting(t) && a < Limit(t.cpu.xlen) && |program| <= |t.progbuf|
    ensures SetEnds(t, 8, a, program, false, 0, after)
    ensures Waiting(after) && OnlyScratch(after, t) && Programmed(after, Decoded(program))
    ensures after.cpu == t.cpu.(regs := t.cpu.regs[8 := a])
  {
    var c := Access(t.cpu.xlen, true, 8, true, true, false);
    var loaded := t.(progbuf := Splice(t.progbuf, 0, program));
    DecodedPrefix(t.progbuf, program);
    EquippedForWriting(loaded, c, a);
    assert Equipped(t, c, program, Words(a, Width(t.cpu.xlen))) == SetArgument(loaded, a);
    WriteRegister(SetArgument(loaded, a), 8);
    ArgumentOf(loaded, a);
    FinishedEnds(SetArgument(loaded, a), c, 0);
    after := Finished(SetArgument(loaded, a), c, 0);
  }

  // A register is set and the program run from there.
  lemma SetAndRun(t: Target, program: seq<Word>, r: Reg, v: nat, n: nat, end: Cpu) returns (after: Target)
    requires Idle(t) && v < Limit(t.cpu.xlen) && |program| <= |t.progbuf| && r != 0
    requires Wf(t.cpu.(regs := t.cpu.regs[r := v]))
    requires var buffer := Decoded(Splice(t.progbuf, 0, program));
             RunN(t.cpu.(regs := t.cpu.regs[r := v]), buffer, 0, n) == Run(end, Done)
    ensures SetEnds(t, r, v, program, true, n, after)
    ensures after.lastCommand == Access(t.cpu.xlen, true, r, true, true, true)
    ensures Idle(after) && OnlyScratch(after, t) && after.cpu == end
    ensures after.progbuf == Splice(t.progbuf, 0, program)
  {
    var c := Access(t.cpu.xlen, true, r, true, true, true);
    var loaded := t.(progbuf := Splice(t.progbuf, 0, program));
    EquippedForWriting(loaded, c, v);
    var equipped := SetArgument(loaded, v);
    assert Equipped(t, c, program, Words(v, Width(t.cpu.xlen))) == equipped;
    ArgumentOf(loaded, v);
    WriteThenRun(equipped, r, n, end);
    RunKeepsShape(t.cpu.(regs := t.cpu.regs[r := v]), Decoded(loaded.progbuf), 0, n);
    FinishedEnds(equipped, c, n);
    after := Finished(equipped, c, n);
  }

  // ---------- Reading a chunk ----------

  // The hart while a chunk is worked on: S0 and S1 hold something else.
  function Using(c: Cpu, s0: nat, s1: nat): Cpu
    requires |c.regs| == 32
  {
    c.(regs := c.regs[8 := s0][9 := s1])
  }

  function WordOf(c: Cpu, a: nat): seq<Byte>
    requires WordAt(c, a)
  {
    c.mem[a..a + Width(c.xlen)]
  }

  lemma WordFits(c: Cpu, a: nat)
    requires WordAt(c, a)
    ensures a < Limit(c.xlen) && Value(WordOf(c, a)) < Limit(c.xlen)
    ensures Wf(c.(regs := c.regs[8 := a]))
  {
    ValueBelow(WordOf(c, a));
    SpanOfWords();
  }

  lemma FirstWordRead(c: Cpu, program: seq<Instr>, a: nat)
    requires WordAt(c, a) && Begins(program, ReadCode(c.xlen))
    ensures Wf(c.(regs := c.regs[8 := a])) && a < Limit(c.xlen)
    ensures RunN(c.(regs := c.regs[8 := a]), program, 0, 3)
         == Run(Using(c, Wrapped(c.xlen, a + Width(c.xlen)), Value(WordOf(c, a))), Done)
  {
    WordFits(c, a);
    var start := c.(regs := c.regs[8 := a]);
    ReadProgramRuns(start, program, a);
    assert AfterRead(start, a).regs == Using(c, Wrapped(c.xlen, a + Width(c.xlen)), Value(WordOf(c, a))).regs;
  }

  lemma ReadStarted(t: Target, program: seq<Word>, a: nat) returns (after: Target)
    requires Waiting(t) && |program| <= |t.progbuf| && WordAt(t.cpu, a)
    requires Decoded(program) == ReadCode(t.cpu.xlen)
    ensures SetEnds(t, 8, a, program, true, 3, after)
    ensures Waiting(after) && OnlyScratch(after, t) && Programmed(after, ReadCode(t.cpu.xlen))
    ensures after.cpu == Using(t.cpu, Wrapped(t.cpu.xlen, a + Width(t.cpu.xlen)), Value(WordOf(t.cpu, a)))
  {
    DecodedPrefix(t.progbuf, program);
    FirstWordRead(t.cpu, Decoded(Splice(t.progbuf, 0, program)), a);
    var end := Using(t.cpu, Wrapped(t.cpu.xlen, a + Width(t.cpu.xlen)), Value(WordOf(t.cpu, a)));
    after := SetAndRun(t, program, 8, a, 3, end);
  }

  // Fetch S1, and unless it was the last word, run the program again.
  lemma NextWordRead(t: Target, more: bool, n: nat, end: Cpu) returns (after: Target)
    requires Waiting(t)
    requires if more then RunN(t.cpu, Decoded(t.progbuf), 0, n) == Run(end, Done) else n == 0 && end == t.cpu
    ensures var c := Access(t.cpu.xlen, true, 9, true, false, more);
            RunEnds(t, c, [], Blank(t.cpu.xlen), n, after)
    ensures Waiting(after) && OnlyScratch(after, t) && after.cpu == end && after.progbuf == t.progbuf
    ensures |after.data| >= |Blank(t.cpu.xlen)|
    ensures after.data[..|Blank(t.cpu.xlen)|] == Words(t.cpu.regs[9], Width(t.cpu.xlen))
  {
    var c := Access(t.cpu.xlen, true, 9, true, false, more);
    EquippedForReading(t, c, Blank(t.cpu.xlen));
    SetArgumentFits(t, t.cpu.regs[9]);
    ArgumentOf(t, t.cpu.regs[9]);
    if more {
      ReadThenRun(t, 9, n, end);
      RunKeepsShape(t.cpu, Decoded(t.progbuf), 0, n);
    } else {
      ReadRegister(t, 9);
    }
    FinishedEnds(t, c, n);
    after := Finished(t, c, n);
  }

  // A chunk is n words of memory.
  ghost predicate ChunkAt(c: Cpu, a: nat, n: nat) {
    Wf(c) && Aligned(c.xlen, a) && a + Extent(c.xlen, n) <= |c.mem|
  }

  lemma Aligned8(a: nat, k: nat)
    requires a % 8 == 0
    ensures (a + 8 * k) % 8 == 0
  {
  }

  lemma Aligned4(a: nat, k: nat)
    requires a % 4 == 0
    ensures (a + 4 * k) % 4 == 0
  {
  }

  lemma ExtentAligned(xlen: nat, a: nat, k: nat)
    requires Aligned(xlen, a)
    ensures Aligned(xlen, a + Extent(xlen, k))
  {
    if xlen == 64 {
      Aligned8(a, k);
    } else {
      Aligned4(a, k);
    }
  }

  lemma WordOfChunk(c: Cpu, a: nat, n: nat, i: nat)
    requires ChunkAt(c, a, n) && i < n
    ensures WordAt(c, a + Extent(c.xlen, i))
    ensures Wrapped(c.xlen, a + Extent(c.xlen, i)) == a + Extent(c.xlen, i)
    ensures Extent(c.xlen, i) + Width(c.xlen) == Extent(c.xlen, i + 1)
  {
    ExtentAligned(c.xlen, a, i);
    assert a + Extent(c.xlen, i) + Width(c.xlen) <= a + Extent(c.xlen, n);
  }

  // The hart when i words of a chunk are in the host's hands and the next is
  // in S1.
  ghost predicate ReadingWord(c: Cpu, c0: Cpu, a: nat, n: nat, i: nat)
    requires ChunkAt(c0, a, n)
  {
    && |c.regs| == 32 && c == Using(c0, c.regs[8], c.regs[9])
    && (i < n ==>
      && WordAt(c0, a + Extent(c0.xlen, i))
      && c.regs[8] == Wrapped(c0.xlen, a + Extent(c0.xlen, i + 1))
      && c.regs[9] == Value(WordOf(c0, a + Extent(c0.xlen, i))))
  }

  // What the host fetches is the word in hand; running the program again, if
  // there is more, brings up the next.
  lemma ReadingGoesOn(c: Cpu, c0: Cpu, program: seq<Instr>, a: nat, n: nat, i: nat) returns (steps: nat, end: Cpu)
    requires Wf(c) && ChunkAt(c0, a, n) && ReadingWord(c, c0, a, n, i) && i < n
    requires ValidCode(program) && ReadCode(c0.xlen) <= program
    ensures if i + 1 < n then RunN(c, program, 0, steps) == Run(end, Done) else steps == 0 && end == c
    ensures ReadingWord(end, c0, a, n, i + 1)
    ensures BytesOfWords(Words(c.regs[9], Width(c0.xlen))) == WordOf(c0, a + Extent(c0.xlen, i))
  {
    var word := WordOf(c0, a + Extent(c0.xlen, i));
    WordsOfValue(word);
    WordsRoundTrip(word);
    if i + 1 < n {
      WordOfChunk(c0, a, n, i + 1);
      ReadProgramRuns(c, program, a + Extent(c0.xlen, i + 1));
      steps, end := 3, AfterRead(c, a + Extent(c0.xlen, i + 1));
      assert end.regs == c0.regs[8 := end.regs[8]][9 := end.regs[9]];
    } else {
      steps, end := 0, c;
    }
  }

  lemma Restored(c0: Cpu, s0: nat, s1: nat)
    requires Wf(c0)
    ensures SetReg(SetReg(Using(c0, s0, s1), 8, c0.regs[8]), 9, c0.regs[9]) == c0
  {
    assert c0.regs[8 := s0][9 := s1][8 := c0.regs[8]][9 := c0.regs[9]] == c0.regs;
  }

  // len bytes are a whole number of words.
  lemma WholeWords(xlen: nat, len: nat)
    requires (xlen == 32 || xlen == 64) && Aligned(xlen, len)
    ensures Extent(xlen, len * 8 / xlen) == len
    ensures len > 0 ==> len * 8 / xlen > 0
  {
  }

  lemma ExtentIsProduct(xlen: nat, k: nat)
    requires xlen == 32 || xlen == 64
    ensures k * (Width(xlen)) == Extent(xlen, k)
  {
  }

  // A buffer that i words of a chunk have been copied into.
  function Copied(buffer: seq<Byte>, at: nat, c: Cpu, a: nat, i: nat): seq<Byte>
    requires a + Extent(c.xlen, i) <= |c.mem| && at + Extent(c.xlen, i) <= |buffer|
  {
    Splice(buffer, at, c.mem[a..a + Extent(c.xlen, i)])
  }

  // One more word copied.
  lemma CopiedWord(buffer: seq<Byte>, at: nat, c: Cpu, a: nat, n: nat, i: nat)
    requires ChunkAt(c, a, n) && i < n && at + Extent(c.xlen, n) <= |buffer|
    requires WordAt(c, a + Extent(c.xlen, i))
    ensures Splice(Copied(buffer, at, c, a, i), at + Extent(c.xlen, i), WordOf(c, a + Extent(c.xlen, i)))
         == Copied(buffer, at, c, a, i + 1)
  {
    var done, width := Extent(c.xlen, i), Width(c.xlen);
    assert Extent(c.xlen, i + 1) == done + width;
    assert WordOf(c, a + done) == c.mem[a + done..a + done + width];
    assert Copied(buffer, at, c, a, i + 1) == Splice(buffer, at, c.mem[a..a + done + width]);
    SpliceSlices(buffer, at, c.mem, a, done, width);
  }

  // i words of a chunk have been read since t0.
  ghost predicate Reading(t: Target, t0: Target, c0: Cpu, a: nat, n: nat, i: nat) {
    && ChunkAt(c0, a, n) && c0.xlen == t0.cpu.xlen
    && Waiting(t) && OnlyScratch(t, t0) && (c0.xlen == 32 || c0.xlen == 64) && Programmed(t, ReadCode(c0.xlen))
      && ReadingWord(t.cpu, c0, a, n, i)
  }

  // The host holds the hart of t0: of the registers, only S0 and S1 may differ.
  ghost predicate Holding(t: Target, t0: Target) {
    && Waiting(t) && Wf(t0.cpu) && OnlyScratch(t, t0)
    && t.cpu == Using(t0.cpu, t.cpu.regs[8], t.cpu.regs[9]).(mem := t.cpu.mem)
  }

  lemma ReadingHolds(t: Target, t0: Target, a: nat, n: nat, i: nat)
    requires Reading(t, t0, t0.cpu, a, n, i)
    ensures Holding(t, t0) && t.cpu.mem == t0.cpu.mem
  {
  }

  // ---------- Writing a chunk ----------

  function StoreCommand(xlen: nat): Command {
    Access(xlen, true, 9, true, true, true)
  }

  // The hart when i words of bs have been stored from address a.
  function Stored(c0: Cpu, a: nat, bs: seq<Byte>, i: nat, s1: nat): Cpu
    requires Wf(c0) && a + Extent(c0.xlen, i) <= |c0.mem| && Extent(c0.xlen, i) <= |bs|
  {
    Using(c0, Wrapped(c0.xlen, a + Extent(c0.xlen, i)), s1).(mem := Splice(c0.mem, a, bs[..Extent(c0.xlen, i)]))
  }

  // i words of bs have been stored since t0.
  ghost predicate Storing(t: Target, t0: Target, a: nat, bs: seq<Byte>, n: nat, i: nat) {
    && Wf(t0.cpu) && ChunkAt(t0.cpu, a, n) && |bs| == Extent(t0.cpu.xlen, n) && i <= n
    && Idle(t) && OnlyScratch(t.(autoexec := 0), t0) && Programmed(t, WriteCode(t0.cpu.xlen))
    && (i > 0 ==> t.lastCommand == StoreCommand(t0.cpu.xlen))
    && t.cpu == Stored(t0.cpu, a, bs, i, t.cpu.regs[9])
  }

  function NextWord(xlen: nat, bs: seq<Byte>, i: nat): seq<Byte>
    requires Extent(xlen, i + 1) <= |bs|
  {
    bs[Extent(xlen, i)..Extent(xlen, i + 1)]
  }

  lemma NextWordFits(xlen: nat, bs: seq<Byte>, i: nat)
    requires (xlen == 32 || xlen == 64) && Extent(xlen, i + 1) <= |bs|
    ensures Value(NextWord(xlen, bs, i)) < Limit(xlen)
    ensures Encode(Value(NextWord(xlen, bs, i)), Width(xlen)) == NextWord(xlen, bs, i)
  {
    var word := NextWord(xlen, bs, i);
    ValueBelow(word);
    SpanOfWords();
    EncodeValue(word);
  }

  lemma StoredBytes(mem: seq<Byte>, a: nat, bs: seq<Byte>, x: nat, y: nat, v: nat, w: nat)
    requires x <= y <= |bs| && a + y <= |mem| && v == Value(bs[x..y]) && w == y - x
    ensures Splice(Splice(mem, a, bs[..x]), a + x, Encode(v, w)) == Splice(mem, a, bs[..y])
  {
    EncodeValue(bs[x..y]);
    SplicePrefixes(mem, a, bs, x, y);
  }

  lemma StoredNext(c0: Cpu, a: nat, bs: seq<Byte>, n: nat, i: nat, s1: nat)
    requires ChunkAt(c0, a, n) && i < n && |bs| == Extent(c0.xlen, n)
    requires PointsAt(Stored(c0, a, bs, i, s1), a + Extent(c0.xlen, i))
    requires s1 == Value(NextWord(c0.xlen, bs, i))
    ensures AfterWrite(Stored(c0, a, bs, i, s1), a + Extent(c0.xlen, i)) == Stored(c0, a, bs, i + 1, s1)
  {
    var done, next := Extent(c0.xlen, i), Extent(c0.xlen, i + 1);
    var after := AfterWrite(Stored(c0, a, bs, i, s1), a + done);
    assert after.mem == Stored(c0, a, bs, i + 1, s1).mem by {
      StoredBytes(c0.mem, a, bs, done, next, s1, Width(c0.xlen));
    }
    assert after.regs == Stored(c0, a, bs, i + 1, s1).regs by {
      SetBoth(c0.regs, Wrapped(c0.xlen, a + done), s1, Wrapped(c0.xlen, a + next));
    }
  }

  lemma SetBoth(regs: seq<nat>, s0: nat, s1: nat, next: nat)
    requires |regs| == 32
    ensures regs[8 := s0][9 := s1][8 := next] == regs[8 := next][9 := s1]
  {
  }

  lemma StoredPoints(c0: Cpu, a: nat, bs: seq<Byte>, n: nat, i: nat, s1: nat)
    requires ChunkAt(c0, a, n) && i < n && |bs| == Extent(c0.xlen, n) && s1 < Limit(c0.xlen)
    ensures PointsAt(Stored(c0, a, bs, i, s1), a + Extent(c0.xlen, i))
  {
    WordOfChunk(c0, a, n, i);
  }

  // S1 given a new value.
  lemma StoredAnew(c0: Cpu, a: nat, bs: seq<Byte>, i: nat, old1: nat, s1: nat)
    requires Wf(c0) && a + Extent(c0.xlen, i) <= |c0.mem| && Extent(c0.xlen, i) <= |bs|
    ensures var c := Stored(c0, a, bs, i, old1);
            c.(regs := c.regs[9 := s1]) == Stored(c0, a, bs, i, s1)
  {
    var s0 := Wrapped(c0.xlen, a + Extent(c0.xlen, i));
    assert c0.regs[8 := s0][9 := old1][9 := s1] == c0.regs[8 := s0][9 := s1];
  }

  lemma StoreRuns(c0: Cpu, a: nat, bs: seq<Byte>, n: nat, i: nat, s1: nat, program: seq<Instr>)
    requires ChunkAt(c0, a, n) && i < n && |bs| == Extent(c0.xlen, n) && Begins(program, WriteCode(c0.xlen))
    requires s1 == Value(NextWord(c0.xlen, bs, i)) && s1 < Limit(c0.xlen)
    ensures Wf(Stored(c0, a, bs, i, s1))
    ensures RunN(Stored(c0, a, bs, i, s1), program, 0, 3) == Run(Stored(c0, a, bs, i + 1, s1), Done)
  {
    StoredPoints(c0, a, bs, n, i, s1);
    StoredNext(c0, a, bs, n, i, s1);
    WriteProgramRuns(Stored(c0, a, bs, i, s1), program, a + Extent(c0.xlen, i));
  }

  lemma StoringRuns(t: Target, t0: Target, a: nat, bs: seq<Byte>, n: nat, i: nat) returns (v: nat, end: Cpu)
    requires Storing(t, t0, a, bs, n, i) && i < n
    ensures v == Value(NextWord(t.cpu.xlen, bs, i)) && v < Limit(t.cpu.xlen)
    ensures Wf(t.cpu.(regs := t.cpu.regs[9 := v]))
    ensures RunN(t.cpu.(regs := t.cpu.regs[9 := v]), Decoded(t.progbuf), 0, 3) == Run(end, Done)
    ensures end == Stored(t0.cpu, a, bs, i + 1, v)
  {
    v := Value(NextWord(t0.cpu.xlen, bs, i));
    NextWordFits(t0.cpu.xlen, bs, i);
    StoredAnew(t0.cpu, a, bs, i, t.cpu.regs[9], v);
    StoreRuns(t0.cpu, a, bs, n, i, v, Decoded(t.progbuf));
    end := Stored(t0.cpu, a, bs, i + 1, v);
  }

  // Giving S1 the next word stores it and moves on.
  lemma StoringGoesOn(t: Target, t0: Target, a: nat, bs: seq<Byte>, n: nat, i: nat) returns (v: nat, after: Target)
    requires Storing(t, t0, a, bs, n, i) && i < n
    ensures v == Value(NextWord(t.cpu.xlen, bs, i)) && v < Limit(t.cpu.xlen)
    ensures SetEnds(t, 9, v, [], true, 3, after)
    ensures Storing(after, t0, a, bs, n, i + 1) && after.autoexec == t.autoexec && OnlyScratch(after, t)
  {
    var end: Cpu;
    v, end := StoringRuns(t, t0, a, bs, n, i);
    SpliceNothing(t.progbuf, 0);
    after := SetAndRun(t, [], 9, v, 3, end);
  }

  lemma StoringBegins(t: Target, t0: Target, program: seq<Word>, a: nat, bs: seq<Byte>, n: nat) returns (after: Target)
    requires t == t0 && Waiting(t) && ChunkAt(t.cpu, a, n) && n > 0 && |bs| == Extent(t.cpu.xlen, n)
    requires |program| <= |t.progbuf| && Decoded(program) == WriteCode(t.cpu.xlen)
    ensures a < Limit(t.cpu.xlen)
    ensures SetEnds(t, 8, a, program, false, 0, after)
    ensures Storing(after, t0, a, bs, n, 0) && after.autoexec == 0 && OnlyScratch(after, t)
  {
    WordOfChunk(t.cpu, a, n, 0);
    WordFits(t.cpu, a);
    after := PointerSet(t, program, a);
    NothingStored(t.cpu, after.cpu, a, bs);
  }

  lemma NothingStored(c0: Cpu, c: Cpu, a: nat, bs: seq<Byte>)
    requires WordAt(c0, a) && c == c0.(regs := c0.regs[8 := a])
    ensures c == Stored(c0, a, bs, 0, c.regs[9])
  {
    SpliceNothing(c0.mem, a);
    assert bs[..0] == [];
    assert c.regs == c0.regs[8 := a][9 := c.regs[9]];
  }

  // Writing the data registers, word 0 last, while word 0 reruns the command.
  lemma DataWordsGo(t: Target, c: Command, ws: seq<nat>, lag: nat)
    requires Idle(t) && t.autoexec == 1 && t.lastCommand == c && c.Access? && c.write && c.transfer
    requires |ws| == t.cpu.xlen / 32 && WordsFit(ws)
    ensures var high := if |ws| == 2 then t.(data := t.data[1 := ws[1]]) else t;
            && Fit(high) && Settled(high)
            && DmiWrite(high, DATA0, ws[0], lag) == Start(Equipped(t, c, [], ws), c, lag)
  {
    SpliceNothing(t.progbuf, 0);
    var high := if |ws| == 2 then t.(data := t.data[1 := ws[1]]) else t;
    WriteLowWord(high, ws[0], lag);
    assert high.data[0 := ws[0]] == Splice(t.data, 0, ws);
  }

  lemma StoringWithAuto(t: Target, t0: Target, a: nat, bs: seq<Byte>, n: nat, i: nat, auto: Word)
    requires Storing(t, t0, a, bs, n, i)
    ensures Storing(t.(autoexec := auto), t0, a, bs, n, i)
  {
    assert t.(autoexec := auto).(autoexec := 0) == t.(autoexec := 0);
  }

  lemma StoringHolds(t: Target, t0: Target, a: nat, bs: seq<Byte>, n: nat)
    requires Storing(t, t0, a, bs, n, n) && t.autoexec == 0 && t0.autoexec == 0
    ensures Holding(t, t0) && t.cpu.mem == Splice(t0.cpu.mem, a, bs)
  {
    assert bs[..|bs|] == bs;
    assert t.(autoexec := 0) == t;
  }

  // ---------- Clearing a chunk ----------

  lemma PointerHeld(t: Target, t0: Target, a: nat)
    requires Waiting(t) && OnlyScratch(t, t0) && Wf(t0.cpu) && t.cpu == t0.cpu.(regs := t0.cpu.regs[8 := a])
    ensures Holding(t, t0) && t.cpu.mem == t0.cpu.mem
  {
    assert t.cpu.regs == t0.cpu.regs[8 := a][9 := t.cpu.regs[9]];
  }

  lemma LoopRuns(c: Cpu, program: seq<Instr>, a: nat, k: nat, s1: nat) returns (end: Cpu)
    requires ChunkAt(c, a, k) && k > 0 && c.regs[8] == a && s1 == Wrapped(c.xlen, a + Extent(c.xlen, k))
    requires Begins(program, ClearCode(c.xlen))
    ensures Wf(c.(regs := c.regs[9 := s1]))
    ensures RunN(c.(regs := c.regs[9 := s1]), program, 0, 3 * k + 1) == Run(end, Done)
    ensures end == Using(c, s1, s1).(mem := Splice(c.mem, a, Zeros(Extent(c.xlen, k))))
  {
    var start := c.(regs := c.regs[9 := s1]);
    WordOfChunk(c, a, k, 0);
    ClearLoop(start, program, a, k);
    end := AfterClear(start, a, k);
    assert end.regs == Using(c, s1, s1).regs;
  }

  lemma LoopInBuffer(c: Cpu, buffer: seq<Word>, program: seq<Word>, a: nat, k: nat, s1: nat) returns (end: Cpu)
    requires ChunkAt(c, a, k) && k > 0 && c.regs[8] == a && s1 == Wrapped(c.xlen, a + Extent(c.xlen, k))
    requires |program| <= |buffer| && Decoded(program) == ClearCode(c.xlen)
    ensures Wf(c.(regs := c.regs[9 := s1]))
    ensures RunN(c.(regs := c.regs[9 := s1]), Decoded(Splice(buffer, 0, program)), 0, 3 * k + 1) == Run(end, Done)
    ensures end == Using(c, s1, s1).(mem := Splice(c.mem, a, Zeros(Extent(c.xlen, k))))
  {
    DecodedPrefix(buffer, program);
    end := LoopRuns(c, Decoded(Splice(buffer, 0, program)), a, k, s1);
  }

  // Of the memory, k words from a on are zero and the rest is as it was.
  ghost predicate ClearedTo(t: Target, t0: Target, a: nat, k: nat) {
    && Holding(t, t0) && a + Extent(t0.cpu.xlen, k) <= |t0.cpu.mem|
    && t.cpu.mem == Splice(t0.cpu.mem, a, Zeros(Extent(t0.cpu.xlen, k)))
  }

  // S1 is set to the end of the range, and the loop runs.
  lemma Cleared(t: Target, t0: Target, program: seq<Word>, a: nat, k: nat, s1: nat) returns (after: Target)
    requires Holding(t, t0) && t.cpu.mem == t0.cpu.mem
    requires |program| <= |t.progbuf| && Decoded(program) == ClearCode(t.cpu.xlen)
    requires ChunkAt(t.cpu, a, k) && k > 0 && t.cpu.regs[8] == a && s1 == Wrapped(t.cpu.xlen, a + Extent(t.cpu.xlen, k))
    ensures SetEnds(t, 9, s1, program, true, 3 * k + 1, after)
    ensures OnlyScratch(after, t) && ClearedTo(after, t0, a, k)
  {
    var end := LoopInBuffer(t.cpu, t.progbuf, program, a, k, s1);
    after := SetAndRun(t, program, 9, s1, 3 * k + 1, end);
    assert end == Using(t0.cpu, s1, s1).(mem := end.mem) by {
      UsingAgain(t0.cpu, t.cpu.regs[8], t.cpu.regs[9], s1);
    }
    HeldAgain(after, t, t0, s1);
  }

  lemma HeldAgain(after: Target, t: Target, t0: Target, s1: nat)
    requires Holding(t, t0) && Waiting(after) && OnlyScratch(after, t)
    requires after.cpu == Using(t0.cpu, s1, s1).(mem := after.cpu.mem)
    ensures Holding(after, t0)
  {
    OnlyScratchAgain(after, t, t0);
  }

  lemma UsingAgain(c: Cpu, x: nat, y: nat, s: nat)
    requires |c.regs| == 32
    ensures Using(Using(c, x, y), s, s) == Using(c, s, s)
  {
    assert c.regs[8 := x][9 := y][8 := s][9 := s] == c.regs[8 := s][9 := s];
  }
}
