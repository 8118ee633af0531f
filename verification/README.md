# Verified model of the Ariane core and its host interface

This project models the parts of the Ariane RV64 core and of its C++ front-end
server in which state, protocols and arithmetic interact most, and proves what
those parts are for:

- the host's byte-granular memory access (`memif`) on top of abstract debug
  commands and hand-assembled RISC-V programs (`dtm`), down to an interpreter of
  the debug module and the hart, and the handoff between host thread and clock;
- issue, forwarding, writeback and in-order commit around the scoreboard;
- the store path: store unit, AMO buffer, the two-ring store buffer, and the
  two-entry load/store bypass;
- the serial divider and the multiply/divide unit;
- the Sv39 page walker with the MMU's address composition, the AXI line adapter,
  the instruction realigner, the compressed decoder, the write port of the
  fixed-latency units, and the trap stack of the CSR file.

`dafny verify dfyconfig.toml` checks everything.

## How the model is laid out

A module with registers is a class. Its `Step` method computes the next state
from the current one and the inputs of a clock cycle, in the source's order of
assignments, and is proved against a small abstract machine (a list of stores,
a job counted down, a port with an outstanding request). Lemmas about runs of
that machine are the main results; they hold for every sequence of inputs the
stated rules allow. Combinational modules are functions.

| file | models |
|---|---|
| Bits, Bytes, Rings | words as numbers, byte strings, ring queues with valid flags |
| SerialDivider, MultiplyDivide, ArithmeticLaws | `src/serdiv.sv`, `src/mult.sv`, `src/multiplier.sv`, and what the answers to the thirteen opcodes mean together |
| StoreBuffer, StoreUnit, LsuBypass | `src/store_buffer.sv`, `src/store_unit.sv` and `src/amo_buffer.sv`, the bypass in `src/load_store_unit.sv` |
| InOrder, OutOfOrder, Scoreboard | sequential execution, the machine with a window of instructions in flight, and `src/scoreboard.sv`, `src/issue_read_operands.sv`, `src/commit_stage.sv` |
| FluPort | the shared write port of `src/ex_stage.sv` with the units' control |
| PageWalk, PageTableWalker | the specified walk, `src/ptw.sv`, address composition in `src/mmu.sv` |
| InstrRealigner | `src/instr_realigner.sv` |
| ShortForms, Compressed, CompressedEffect, CompressedLaws | the instructions of chapter 12, `src/compressed_decoder.sv`, what executing its output does, and what that is in terms of an encoding's bits |
| AxiAdapter | `src/axi_adapter.sv` |
| TrapStack | `src/csr_regfile.sv` |
| Fields, Encoding, Hart, DebugPrograms | the fields of an instruction word, the instruction words of `tb/dpi/fesvr/dtm.cc`, a hart that runs them, and what the three chunk programs do |
| DebugModule, AbstractCommands, Dtm | the debug module, the words the host writes to it, and the host's operations |
| Memif | `tb/dpi/fesvr/memif.cc` |
| Handoff | `do_command` and `tick` |

Widths, queue depths and entry counts that are package constants are
parameters. Numbers are unbounded; every wrap-around and truncation is written
out.

## Where the code and its documents differ

- For a signed dividend of -1 the complement taken at `src/serdiv.sv:86` is 0,
  and the bit shifted in below it is a 0 as well, so the leading-zero counter
  sees an empty word. Exactly the signed pair (-1, 1) takes the early-zero path
  and is answered 0 instead of -1 (for a remainder, the answer is the dividend
  instead of 0). `SerialDivider.ResultMeetsTable` and
  `MultiplyDivide.UnitMeetsIsa` say so in both directions. The concatenation is
  one bit wider than the signal it is assigned to, but the bit that is dropped is
  always 0.
- An AMO's result reaches the register file at commit, while the store unit
  writes back a placeholder earlier, and the commit stage never asserts its
  flush for AMOs. An instruction that reads the AMO's destination while the AMO
  is in flight gets the placeholder; it is right exactly when the AMO returns
  the same value (`Scoreboard.AmoConsumerGetsPlaceholder`), and a wrong operand
  is reached from reset in two cycles (`Scoreboard.WrongOperandIsReachable`).
- A second flush while the page walker waits to drop an answer lets that answer
  through (`PageTableWalker.SecondFlushLetsAnswerThrough`); exactly such flushes
  break the matching (`PageTableWalker.MatchedUntilSecondFlush`).
- `modify_csr` ORs the upper half of a 64-bit CSR onto the lower half without
  moving it up (`tb/dpi/fesvr/dtm.cc:446-448`); the result is the CSR's value
  exactly when the upper half is zero (`Dtm.CsrResultIsValue`).
- The write mask of `mie` lacks the machine external interrupt
  (`src/csr_regfile.sv:484`), so that bit is never set
  (`TrapStack.ReachableTraps`).
- `mstatus.mpp` accepts the reserved level 2. From it, and only from it, a
  delegated trap lowers the privilege level (`TrapStack.TrapsNeverLower`).
- An entry to debug mode by a breakpoint is a trap as well (`src/csr_regfile.sv:558`), and a write of
  `dcsr` stores the level the hart is at (`src/csr_regfile.sv:387`): a debugger that writes `dcsr` resumes
  the program at the trap's level (`TrapStack.DebugReturn`, `TrapStack.BreakpointLevelIsLost`).
- The forwarding search serves the second source only if it is not the first
  (`src/scoreboard.sv:219-232`): an instruction that reads one register twice waits until its writer has
  committed (`Scoreboard.IssueWaitsForHazards`).
- The compressed decoder flags some hints as illegal
  (`Compressed.IllegalIsReservedOrHint`).

## Model

| member | source | states |
|---|---|---|
| `SerialDivider.ResultMeetsTable` | src/serdiv.sv:82-256 | over every run of the registers from an idle unit, for every width, opcode and operand pair: no answer before the operation's number of iterations, at most the width plus one; then the output carries its ID and the answer of the ISA's division table (zero divisor and signed overflow included) if and only if the pair is not signed (-1, 1) |
| `SerialDivider.SignedOverflowRow` | src/serdiv.sv:119-132 | the table's overflow row: the most negative number over -1 gives itself and remainder 0 |
| `SerialDivider.TruncDivision` | src/serdiv.sv:128-132 | the table's quotient and remainder recombine to the dividend, the remainder is smaller than the divisor and has the dividend's sign |
| `SerialDivider.EveryOperationFinishes` | src/serdiv.sv:145-210 | an accepted operation is offered after exactly its number of iterations, never more than the width plus one, whatever else arrives |
| `SerialDivider.ResultStays` | src/serdiv.sv:190-200 | an offered result stands until it is taken |
| `SerialDivider.EarlyZero` | src/serdiv.sv:86-113 | ending early is right for every pair whose dividend is below the divisor, and otherwise happens for the one bad pair only |
| `SerialDivider.Aligned` | src/serdiv.sv:86-113 | after alignment by leading zeros the divisor fits the register and twice it exceeds the dividend |
| `SerialDivider.CompareAndSubtract` | src/serdiv.sv:135-139 | on operands in the divisor's sign, the comparator decides whether the divisor goes into the remainder and the subtractor takes it away |
| `SerialDivider.ShiftDivisor` | src/serdiv.sv:125 | shifting in the saved sign keeps a divisor whose magnitude needs one bit more than the register |
| `SerialDivider.Correct` | src/serdiv.sv:128-132 | from the magnitudes' quotient and remainder the output stage makes the table's answer for all four opcodes |
| `SerialDivider.IterationTracks` | src/serdiv.sv:122-147 | an iteration keeps dividend = quotient * aligned divisor + remainder with the remainder below the divisor |
| `SerialDivider.NextTracks` | src/serdiv.sv:149-227 | loading, iterating, offering and flushing keep the registers in step with the visible machine |
| `SerialDivider.RunTracks` | src/serdiv.sv:149-256 | over any run, flushes and waits included, the registers stay in step with the visible machine |
| `SerialDivider.Divider.Control` | src/serdiv.sv:149-210 | handshake and register enables are those of the visible machine in each of its states |
| `SerialDivider.Divider.Step` | src/serdiv.sv:82-256 | every cycle follows the visible machine and a valid output carries its result and transaction ID |
| `MultiplyDivide.UnitMeetsIsa` | src/mult.sv:20-127 | all thirteen multiply and divide operations, word forms included, meet the ISA if and only if the operands are not the signed pair (-1, 1) |
| `MultiplyDivide.MultiplierMeetsIsa` | src/multiplier.sv:40-88 | low, high (signed, unsigned, mixed) and word products are right for all operands |
| `MultiplyDivide.CongruentProduct` | src/multiplier.sv:64-77 | the low half of the product does not depend on how the factors are extended |
| `MultiplyDivide.UpperHalf` | src/multiplier.sv:80-88 | the upper half of the wrapped double-width product is the wrapped high half of the true product |
| `MultiplyDivide.WordDivisionMeetsIsa` | src/mult.sv:87-127 | a word division done by the full-width divider on extended operands gives the word result, the one pair excepted |
| `MultiplyDivide.ReferenceOfWord` | src/mult.sv:87-127 | the table's full-width answer on extended words is the sign-extended word answer, overflow and zero divisor included |
| `MultiplyDivide.BadWordPair` | src/mult.sv:87-127 | on the bad pair the word result is wrong as well |
| `MultiplyDivide.Unit.Step` | src/mult.sv:20-139 | a cycle of the unit is a step of the machine the run lemmas are about; its output is the result and ID of the multiplication one cycle ago, or else of the finished division |
| `MultiplyDivide.EachComesOutOnce` | src/mult.sv:20-139 | over every run without a flush, of the multiplications and of the divisions: the answers are those the ISA gives for the accepted operations (the signed pair (-1, 1) excepted), in their order, each once, with its own ID, at most one of a kind still inside |
| `MultiplyDivide.DivisionComesOut` | src/mult.sv:73-139 | an accepted division is answered not before its iterations are done, at most the width plus one, and after at most those and the cycles in which a product takes precedence |
| `ArithmeticLaws.DivAndRem` | src/mult.sv:69-127 | for every width and every nonzero divisor, the pair (-1, 1) excepted: the signed numbers the unit answers to DIV and REM recombine to the dividend, the remainder is below the divisor in size and on the dividend's side; for the most negative number over -1 the answers are itself and 0 |
| `ArithmeticLaws.DivwAndRemw` | src/mult.sv:69-127 | the same for DIVW and REMW on the low words, with both answers sign-extended |
| `ArithmeticLaws.DivuAndRemu` | src/mult.sv:69-127 | DIVU and REMU recombine to the dividend as unsigned numbers, the remainder below the divisor |
| `ArithmeticLaws.DivuwAndRemuw` | src/mult.sv:69-127 | the same for DIVUW and REMUW on the low words, with both answers sign-extended |
| `ArithmeticLaws.ZeroDivisor` | src/mult.sv:69-127 | a zero divisor gives all ones for the four divisions and the dividend, sign-extended from the word in the word forms, for the four remainders |
| `ArithmeticLaws.MulhuCompletes` | src/multiplier.sv:40-88 | MULHU above MUL is the product of two unsigned factors |
| `ArithmeticLaws.MulhsuCompletes` | src/multiplier.sv:40-88 | MULHSU, as a signed number, above MUL is the product of a signed and an unsigned factor |
| `ArithmeticLaws.MulhCompletes` | src/multiplier.sv:40-88 | MULH, as a signed number, above MUL is the product of two signed factors |
| `ArithmeticLaws.MulwIsLowWord` | src/multiplier.sv:80-88 | MULW is the low word of the product, sign-extended |
| `StoreBuffer.GrantsFollowProgramOrder` | src/store_buffer.sv:72-178 | over every run within the assertions, the cache's writes are the committed stores in program order, each exactly once |
| `StoreBuffer.EveryStoreAccountedFor` | src/store_buffer.sv:72-178 | over every run, flushes included, the list is the pushed stores in push order with exactly the dropped ones left out; as a balance, every store is granted, waiting, speculative or dropped |
| `StoreBuffer.RunKeepsShape` | src/store_buffer.sv:252-273 | in every run no queue overflows, marks only move forward, and committed stores stay in place |
| `StoreBuffer.StoresOfACycle` | src/store_buffer.sv:72-118 | a flush drops exactly the stores that have not committed |
| `StoreBuffer.UnmatchedLoadReadsProgramOrder` | src/store_buffer.sv:195-218 | a load whose page offset matches no queued or arriving store reads from memory what it would read after all of them |
| `StoreBuffer.LoadsSeeProgramOrder` | src/store_buffer.sv:195-218 | the same for the memory any allowed run has built |
| `StoreBuffer.LastStrobeWins` | src/store_buffer.sv:120-178 | a byte of memory is the data byte of the last store that strobes it |
| `StoreBuffer.NoStrobe` | src/store_buffer.sv:120-178 | and a byte no store strobes stays |
| `StoreBuffer.MatchMeansSameDoubleword` | src/store_buffer.sv:195-218 | a load is held back by exactly the stores to its doubleword of a page offset; within one page those are the stores to its doubleword |
| `StoreBuffer.Buffer.AddressChecker` | src/store_buffer.sv:195-218 | the slot-by-slot search of both rings finds a match if and only if some waiting or arriving store has the offset |
| `StoreBuffer.Buffer.StoreIf` | src/store_buffer.sv:140-178 | the commit ring takes the committing store and drops the granted head, wherever its pointers stand |
| `StoreBuffer.Buffer.CoreIf` | src/store_buffer.sv:72-118 | the speculative ring takes the arriving store, gives up the committing one, and is empty after a flush |
| `StoreBuffer.Buffer.Step` | src/store_buffer.sv:72-249 | every cycle follows the program-order list, and requests, readiness and the match flag are those of the list |
| `StoreUnit.BackpressureIsSound` | src/store_unit.sv:77-210 | in every run, readiness seen a cycle early keeps the store queue from overflowing and an AMO is pushed only into an empty AMO buffer |
| `StoreUnit.ReadinessSeenEarly` | src/store_unit.sv:108-150 | one cycle: what was accepted on last cycle's readiness still finds room |
| `StoreUnit.StoresReachCacheInOrder` | src/store_unit.sv:77-265 | over every run, flushes included, the store buffer's list is the stores handed to the unit, in order, with exactly those left out that a flush dropped, and the cache's writes are a prefix of it |
| `StoreUnit.NothingDroppedWithoutFlush` | src/store_unit.sv:77-265 | without a flush the cache's writes followed by the waiting stores are all the stores handed to the unit |
| `StoreUnit.PushedIsHandedOn` | src/store_unit.sv:193-210 | what enters the store queue is exactly the accepted stores that are not AMOs and not killed, with the data moved to its byte lanes |
| `StoreUnit.AmosGoInOrder` | src/amo_buffer.sv:35-80 | from any state, over every run in which an AMO finds room: the AMOs that leave the buffer followed by the one that waits are the accepted AMOs not killed, in order, each once, with the data as it stands in the register; without a flush the cache answers every one that leaves |
| `StoreUnit.AmosReachCacheInOrder` | src/store_unit.sv:77-265 | the same in every run from reset whose commit side keeps its rules |
| `StoreUnit.Unit.Control` | src/store_unit.sv:77-174 | the state machine posts only from the valid state; it takes a request exactly when idle, or behind a store if it is no AMO, with a hit and room, or to get rid of one with an exception; otherwise it waits for what is missing |
| `StoreUnit.Unit.Step` | src/store_unit.sv:77-265 | an accepted request goes into exactly the buffer it belongs to unless a flush or its exception kills it |
| `StoreUnit.Unit.AmoStep` | src/amo_buffer.sv:35-80 | the AMO buffer is a one-entry queue with flush |
| `LsuBypass.NeverMoreThanTwo` | src/load_store_unit.sv:397-459 | although readiness is reported a cycle early, the queue never holds more than two requests |
| `LsuBypass.FirstInFirstOut` | src/load_store_unit.sv:397-459 | without a flush requests leave in arrival order and none is lost |
| `LsuBypass.FlushForgets` | src/load_store_unit.sv:440-446 | a flush empties the queue: whatever came before or with it, what leaves afterwards is what arrives afterwards, in order, none lost |
| `LsuBypass.Bypass.Step` | src/load_store_unit.sv:406-476 | the two-slot memory with one-bit pointers is that queue, passing its input through when empty |
| `Rings.SlotsAreDistinct` | src/scoreboard.sv:92-181 | two instructions in flight never have the same transaction ID |
| `Rings.RingPush` | src/scoreboard.sv:108-126 | a push at the issue pointer keeps the valid flags exactly on the window |
| `Rings.RingPop` | src/scoreboard.sv:155-170 | freeing the head keeps the valid flags exactly on the window |
| `InOrder.DeliveredIsSequential` | src/issue_read_operands.sv:144-230 | a committed register nobody in flight writes, or the result of its single finished writer, is the value sequential execution gives |
| `InOrder.WriterInFlight` | src/scoreboard.sv:187-203 | with a single writer in flight, the register's sequential value is that writer's result |
| `InOrder.UnwrittenRegister` | src/scoreboard.sv:187-203 | with no writer in flight, it is the committed value |
| `OutOfOrder.CommitIsOrderly` | src/commit_stage.sv:86-246 | only finished instructions commit, the second only behind the first, and a write without an acknowledge concerns register zero |
| `OutOfOrder.RetiresExactlyWhenFree` | src/commit_stage.sv:86-246 | a finished instruction retires if and only if there is no halt or debug request, the store buffer has room for a store, the stores have drained for a fence and the response is there for an AMO; a store is handed on in the cycle in which it retires and in no other, a retired CSR instruction has its commit signal, and an AMO offers itself exactly when finished and not halted |
| `OutOfOrder.SecondRetiresBehindFirst` | src/commit_stage.sv:213-246 | the second instruction retires if and only if the first does, it is finished and is neither store nor CSR instruction, the first is none for the CSR file, and the core is not stepped |
| `OutOfOrder.CycleKeepsInv` | src/scoreboard.sv:104-181 | a cycle of issue, writeback, commit and flush keeps: committed registers sequential, window in program order, results right, one writer a register |
| `OutOfOrder.OneWriterStays` | src/issue_read_operands.sv:285-327 | the write-after-write rule keeps at most one writer in flight for each register |
| `Scoreboard.OperandsAreSequential` | src/issue_read_operands.sv:144-230 | the operands of an instruction that issues, from register file, ring or writeback port, are the sequential ones if and only if every AMO in flight it reads from returns the placeholder, so always if there is none |
| `Scoreboard.ForwardedIsGood` | src/scoreboard.sv:208-266 | a forwarded value is the result of the register's only writer |
| `Scoreboard.SourceIsSequential` | src/issue_read_operands.sv:144-230 | what the operand stage takes for a source, unless it stalls, is the sequential value if and only if no AMO in flight is going to put something else than the placeholder there; a CSR writer always stalls its reader |
| `Scoreboard.ChosenIsRight` | src/issue_read_operands.sv:285-327 | an acknowledged instruction has sequential operands and leaves no second writer, and one that nothing hinders is acknowledged |
| `Scoreboard.NoSecondWriter` | src/issue_read_operands.sv:294-312 | issuing when the register is free, or being written by a commit of this cycle, leaves no other writer in flight |
| `Scoreboard.CommitIsRight` | src/commit_stage.sv:86-246 | what the two commit ports write is what sequential execution writes |
| `Scoreboard.RunsAreSequential` | src/scoreboard.sv:81-266 | over every run of the issue, forwarding and commit logic in an environment that keeps its rules: in each cycle the issued operands and the committed data are sequential and nothing commits unfinished; the register file ends up that of the committed prefix, and as many have committed, in issue order, as were acknowledged |
| `Scoreboard.TickIsRight` | src/scoreboard.sv:104-181 | the same of one cycle: the logic's choice is right, acknowledging never underflows the ring, the read pointer moves by the acknowledges, and the state after it is sound again |
| `Scoreboard.HistoryStands` | src/scoreboard.sv:104-181 | a cycle never changes what has committed and adds what it acknowledges |
| `Scoreboard.RetiringSetsOff` | src/commit_stage.sv:86-246 | over every run: the stores handed to the store buffer, the CSR instructions carried out at their retirement and the AMOs answered are exactly those among the retired instructions, in program order, each once |
| `Scoreboard.IssuedOperandsAre` | src/issue_read_operands.sv:195-230 | operand by operand: zero-extended immediate, pc or the first register's sequential value; the second register's sequential value for a store, a branch and whatever has no immediate, else the immediate |
| `Scoreboard.IssueWaitsForHazards` | src/issue_read_operands.sv:144-327 | an instruction that issues has a free entry besides the last and its unit; each writer in flight of a source is not for the CSR file and has its result in the ring or on a port, the writer of its destination is retiring, and if its two sources are the same register nobody in flight writes it |
| `Scoreboard.IssueGoesWhenFree` | src/issue_read_operands.sv:285-327 | and nothing else keeps it: with its writers finished and the writer of its destination retiring it issues |
| `Scoreboard.AmoConsumerGetsPlaceholder` | src/commit_stage.sv:86-120 | whatever comes back in the cycle, either source an AMO in flight is going to write is issued as the placeholder; the operands are right if no source is one, and otherwise if and only if the AMOs return the placeholder |
| `Scoreboard.WrongOperandIsReachable` | src/store_unit.sv:50 | a run from reset in which an addition issues with an AMO's placeholder instead of its result |
| `Scoreboard.Core.ClobberOutput` | src/scoreboard.sv:187-203 | the clobber table names a register's writer in flight, or none, for all registers but zero |
| `Scoreboard.Core.ReadOperands` | src/scoreboard.sv:208-266 | the forwarding search finds a finished writer of the register, misses none that has finished, and takes the first port that brings a result for one of the two sources |
| `Scoreboard.Core.IssueDecision` | src/issue_read_operands.sv:124-327 | stall, forward, busy and write-after-write checks give exactly the decision the lemmas are about |
| `Scoreboard.Core.IssueFifo` | src/scoreboard.sv:104-181 | push, writebacks, two commits and flush on the ring are those of the window, and acknowledging never underflows it |
| `Scoreboard.Core.Step` | src/scoreboard.sv:81-283 | a cycle of the ring, pointers and register file is a tick of the machine the run lemma is about |
| `FluPort.PortIsNeverContended` | src/ex_stage.sv:171-193 | in every reachable cycle at most one of ALU, branch, CSR, multiplier and divider is valid, and a division never waits for the port |
| `FluPort.RuleIsNeeded` | src/issue_read_operands.sv:324-326 | with the multiplication rule left out, a run from reset has two results in one cycle, of which one is never delivered |
| `FluPort.ResultsLeaveInIssueOrder` | src/ex_stage.sv:171-193 | over a run without a flush the port's transaction IDs are those of the started instructions in issue order, each once, with at most two inside |
| `FluPort.CycleConserves` | src/issue_read_operands.sv:233-280 | what is pending and what starts is what leaves and what is pending next |
| `FluPort.ArrivesInTime` | src/ex_stage.sv:171-193 | what starts in the ALU, the branch unit or the CSR unit is on the port in the next cycle, a multiplication in the one after, a division when its counter says so |
| `FluPort.UnhinderedStarts` | src/issue_read_operands.sv:285-327 | with its unit free and nothing else in its way an instruction starts; the CSR entry is free as soon as the instruction in it commits |
| `FluPort.CsrAddressIsKept` | src/csr_buffer.sv:44-64 | in every run from reset whose commits come for a waiting address, no CSR instruction comes for an entry in use, so each address stays until its commit; one entry is enough |
| `FluPort.Flu.DividerControl` | src/serdiv.sv:149-210 | readiness, validity and phase of the divider behind the multiplier's precedence |
| `FluPort.Flu.CsrBuffer` | src/csr_buffer.sv:44-64 | the single CSR entry and its readiness, with commit and flush |
| `FluPort.Flu.Step` | src/ex_stage.sv:171-193 | a cycle puts exactly the one finished unit's ID on the port and keeps the units apart |
| `PageWalk.LargePageAddress` | src/mmu.sv:278-290 | composing page number and offset by 4K, 2M and 1G entries gives the specified physical address |
| `PageWalk.WalkThenHit` | src/mmu.sv:179-306 | a walk without the user check, followed by a TLB hit that makes it, has the same faults and the same address as the specified translation |
| `PageWalk.UserCheckCanWait` | src/mmu.sv:189-199 | leaving the user-page check to the lookup changes no outcome |
| `PageWalk.TranslateIsSv39` | src/ptw.sv:126-165 | for every table, address, access and privilege level, the walk with its permission checks is section 4.4 written out for the three page sizes, with entry addresses, permissions, alignment and physical address as numbers |
| `PageWalk.EntryIsInItsTable` | src/ptw.sv:182-290 | an entry's address is a multiple of eight in its table's page, and the entry's number is the level's nine-bit field of the virtual address |
| `PageWalk.EntriesMeet` | src/ptw.sv:182-290 | two walks look at the same entry if and only if they have the same table and the same field |
| `PageWalk.FieldsMakeTheAddress` | src/ptw.sv:182-290 | the three fields and the page offset make up the 39 bits of the address |
| `PageWalk.EntryServesItsPage` | src/ptw.sv:113-124 | the TLB entry a walk leaves translates every address of its page, of whichever size, as the page table does |
| `PageTableWalker.LookupFollowsSpecification` | src/ptw.sv:209-304 | one look at an entry faults, finds the leaf with its level and accumulated global bit, or descends, as the recursive walk does |
| `PageTableWalker.MatchedUntilSecondFlush` | src/ptw.sv:198-333 | requests and answers stay matched in exactly the cycles without a flush while an answer is being dropped |
| `PageTableWalker.NoStaleAnswer` | src/ptw.sv:310-333 | in every run without such a flush the walker is never idle or requesting with an answer outstanding |
| `PageTableWalker.SecondFlushLetsAnswerThrough` | src/ptw.sv:310-333 | a run in which a second flush makes a later walk read an earlier walk's answer |
| `PageTableWalker.WalkIsSpecified` | src/ptw.sv:124-364 | over every run from idle with a miss to the next idle cycle, without a flush: only the last cycle reports, after at most three entries, the specified walk's leaf for the TLB of the access or an error exactly where that walk faults; with the MMU's lookup of the entry, the specified translation at every privilege level |
| `PageTableWalker.MissIsServed` | src/ptw.sv:165-364 | the same in full: a fetch miss without a data access, or else a data miss, is served, with its own address, root, access and address space; the lookup of the delivered entry, or a page fault for an error, is the translation written out in `PageWalk.Sv39` |
| `PageTableWalker.WalkEnds` | src/ptw.sv:165-364 | besides the cycles in which it waits for the cache a walk is busy for at most seven cycles |
| `PageTableWalker.CycleIsSound` | src/ptw.sv:124-364 | every cycle of the registers, flushes included, stays on the specified walk, keeps requests and answers matched, and puts out what that walk comes to |
| `PageTableWalker.Ptw.Lookup` | src/ptw.sv:209-304 | the entry checks: validity, permissions, alignment of large pages, accessed and dirty bits, next table |
| `PageTableWalker.Ptw.Step` | src/ptw.sv:124-364 | a cycle of the registers is an edge of the machine the run lemma is about, with its outputs |
| `InstrRealigner.RunEmitsTheParse` | src/instr_realigner.sv:54-252 | over every run of the registers, whenever words arrive and the decoder stalls, what is emitted followed by the parse of what is left is the parse of the halfword stream |
| `InstrRealigner.WholeParse` | src/instr_realigner.sv:54-252 | with two acknowledged cycles a word, exactly the whole parse comes out |
| `InstrRealigner.WordsAreUsedUp` | src/instr_realigner.sv:207-221 | acknowledged cycles use the words up, so nothing is held back |
| `InstrRealigner.ServeIsFaithful` | src/instr_realigner.sv:54-233 | one word served emits the first instructions of what remains and leaves the rest, in all register states |
| `InstrRealigner.ServeFits` | src/instr_realigner.sv:54-233 | the saved half and the served-half flag always fit the words still queued |
| `InstrRealigner.ParseAddressesAdvance` | src/instr_realigner.sv:54-233 | each instruction's address is the previous one's plus its length |
| `InstrRealigner.ParseTakesItsHalves` | src/instr_realigner.sv:54-233 | each instruction is one halfword of the stream, or two if its own lowest two bits are ones, at the place its address says, with the next one right behind it; only a first half without its second is left over |
| `InstrRealigner.Realigner.Step` | src/instr_realigner.sv:54-252 | a cycle of the registers is a cycle of the run, with any acknowledge, and a flush clears both flags |
| `Compressed.ExpansionMeansTheSame` | src/compressed_decoder.sv:33-282 | for every integer encoding not flagged, the expansion decodes to the instruction chapter 12 of the ISA assigns to the encoding |
| `CompressedEffect.ExpansionHasTheEffect` | src/compressed_decoder.sv:33-282 | for every integer encoding not flagged and every state of registers, memory and pc, executing the expansion with its compressed flag has the effect chapter 12 gives the encoding, link address included |
| `CompressedEffect.LongHasTheEffect` | src/decoder.sv:1005-1046 | each 32-bit form of chapter 12 does what its compressed form does: copies and constants without an addition, jumps without a link, two bytes to the next instruction |
| `CompressedEffect.LinkNeedsTheFlag` | src/branch_unit.sv:47-60 | without the flag a linking register jump leaves the wrong return address |
| `CompressedEffect.StoreThenLoad` | src/compressed_decoder.sv:57-82 | a compressed load gets what a compressed store of its size has put at the address, a word sign-extended |
| `CompressedEffect.LoadReturnsStore` | src/compressed_decoder.sv:57-82 | reading back n bytes gives the low n bytes of the stored value |
| `CompressedEffect.LogicIsBitwise` | src/compressed_decoder.sv:144-163 | every bit of the result of c.and, c.or and c.xor comes from the two operands' bits at its place |
| `CompressedEffect.ShiftsScale` | src/compressed_decoder.sv:126-136 | the shifts by a constant multiply, or divide the number or the signed number rounding down |
| `CompressedLaws.AddiAdds` | src/compressed_decoder.sv:92-96 | from the encoding's own bits, as in the rows that follow: executing c.addi's expansion adds a number from -32 to 31 modulo 2^64 |
| `CompressedLaws.AddiwAdds` | src/compressed_decoder.sv:98-104 | c.addiw leaves the signed low word of the sum |
| `CompressedLaws.LiLoads` | src/compressed_decoder.sv:106-110 | c.li loads that number |
| `CompressedLaws.LuiLoads` | src/compressed_decoder.sv:112-124 | c.lui loads it times 4096 |
| `CompressedLaws.Addi16spMoves` | src/compressed_decoder.sv:112-124 | c.addi16sp moves the stack pointer by a signed multiple of 16 |
| `CompressedLaws.Addi4spnPoints` | src/compressed_decoder.sv:45-49 | c.addi4spn adds a multiple of 4 to the stack pointer |
| `CompressedLaws.SubSubtracts` | src/compressed_decoder.sv:144-147 | c.sub leaves the difference modulo 2^64 |
| `CompressedLaws.AddwAdds` | src/compressed_decoder.sv:168-171 | c.addw leaves the signed low word of the sum |
| `CompressedLaws.SubwSubtracts` | src/compressed_decoder.sv:164-167 | c.subw leaves the signed low word of the difference |
| `CompressedLaws.LogicWorks` | src/compressed_decoder.sv:149-162 | c.and, c.or and c.xor, bit by bit |
| `CompressedLaws.AndiMasks` | src/compressed_decoder.sv:137-140 | c.andi masks with the sign-extended constant |
| `CompressedLaws.AddAdds` | src/compressed_decoder.sv:226-251 | c.add leaves the sum modulo 2^64 |
| `CompressedLaws.SlliMultiplies` | src/compressed_decoder.sv:201-206 | c.slli multiplies by a power of two modulo 2^64 |
| `CompressedLaws.ShiftRightDivide` | src/compressed_decoder.sv:126-135 | c.srli divides the number, c.srai the signed number, rounding down |
| `CompressedLaws.LoadBrings` | src/compressed_decoder.sv:57-66 | a load brings the bytes from base register plus offset on, least significant first, a word as its signed number |
| `CompressedLaws.StorePuts` | src/compressed_decoder.sv:73-81 | a store puts the register's low bytes there and changes nothing else |
| `CompressedLaws.JJumps` | src/compressed_decoder.sv:185-188 | c.j moves the pc by an even number from -2048 to 2046 |
| `CompressedLaws.BranchesGo` | src/compressed_decoder.sv:190-194 | c.beqz and c.bnez move it by an even number from -256 to 254 exactly if the register is, or is not, zero, and otherwise by two |
| `CompressedLaws.MvCopies` | src/compressed_decoder.sv:226-251 | c.mv copies a register |
| `CompressedLaws.RegisterJumpsGo` | src/compressed_decoder.sv:226-251 | c.jr and c.jalr go to the register's address with the lowest bit cleared, and c.jalr leaves the address two bytes on in x1 |
| `Compressed.IllegalIsReservedOrHint` | src/compressed_decoder.sv:33-282 | an integer encoding is flagged if and only if it is reserved or one of the named hints |
| `Compressed.JMeans` | src/compressed_decoder.sv:185-188 | the jump offset's eight scattered pieces come out in place and sign-extended |
| `Compressed.BranchMeans` | src/compressed_decoder.sv:190-194 | the same for the two branches, with the right comparison |
| `AxiAdapter.WriteInOrder` | src/axi_adapter.sv:120-262 | whatever the order of the two ready signals, words go out once each in order and the address at most once |
| `AxiAdapter.GrantedWriteIsWhole` | src/axi_adapter.sv:120-262 | a granted line write has had one address handshake and every word, and until then something is offered |
| `AxiAdapter.WriteIsDoneOnce` | src/axi_adapter.sv:118-275 | over every run of the registers from idle to the response, with the request held until its grant: one grant, one address handshake, and the request's words once each in order, only the final one marked |
| `AxiAdapter.ReadPresentsMemory` | src/axi_adapter.sv:118-322 | over every run from the grant of a line read to its response, with any pauses: no other grant, a beat a word, and if the bus delivers the burst the line presented is the line in memory, incrementing or wrapping |
| `AxiAdapter.BurstPresentsMemory` | src/axi_adapter.sv:74-322 | the same by addresses: if the bus answers the burst asked for with what stands at the addresses section A3.4.1 of the AMBA AXI specification gives its transfers, word j presented is what stands at the requested address rounded down to a line, plus 8j, and the word of the requested address is passed on early, exactly once |
| `AxiAdapter.BurstCoversLine` | src/axi_adapter.sv:74-84 | every transfer of the burst that is asked for, incrementing or wrapping, has the address of the line's word the adapter takes it for |
| `AxiAdapter.LineReadIsMemory` | src/axi_adapter.sv:277-322 | a line assembled from an incrementing or wrapping burst equals the line in memory |
| `AxiAdapter.BeatsFillDistinctWords` | src/axi_adapter.sv:277-322 | no two beats of a burst go to the same word |
| `AxiAdapter.RequestedWordComesFirst` | src/axi_adapter.sv:277-322 | in wrapping order the first beat is the requested word |
| `AxiAdapter.Adapter.WriteControl` | src/axi_adapter.sv:118-262 | the five write states offer exactly what the two-handshake machine has not got rid of, with `last` only on the final beat |
| `AxiAdapter.Adapter.ReadControl` | src/axi_adapter.sv:118-322 | reads, beat indices, wrap-around, and responses |
| `AxiAdapter.Adapter.ReadTick` | src/axi_adapter.sv:277-345 | a cycle of the registers of anything but a write: each beat is stored at its word, and a completed read presents the line |
| `AxiAdapter.Adapter.WriteTick` | src/axi_adapter.sv:118-262 | a cycle of the registers of a write follows the two-handshake machine and leaves the line alone |
| `TrapStack.TrapsNeverLower` | src/csr_regfile.sv:558-614 | outside debug mode a trap keeps or raises the privilege level if and only if it is not a delegated trap from the reserved level |
| `TrapStack.ReservedLevelIsReachable` | src/csr_regfile.sv:450-462 | software can reach the reserved level through mstatus |
| `TrapStack.RunsAreLegal` | src/csr_regfile.sv:434-486 | in all runs the mode of satp is off or Sv39 and medeleg, mideleg, mie and mip stay within their masks |
| `TrapStack.ReachableTraps` | src/csr_regfile.sv:467-486 | in every run from reset only the six delegable exceptions and three interrupts reach supervisor mode, and machine external interrupts are never enabled |
| `TrapStack.MachineReturnRestores` | src/csr_regfile.sv:587-721 | a machine trap, a handler that leaves the status alone and its return restore level and interrupt enable and leave supervisor state alone |
| `TrapStack.SupervisorReturnRestores` | src/csr_regfile.sv:570-734 | a supervisor trap whose handler takes machine traps any number of times and returns restores both interrupt enables, and the level if and only if it was not the reserved one |
| `TrapStack.SecondMachineTrapLosesTheLevel` | src/csr_regfile.sv:587-721 | a machine trap inside a machine handler loses the level to return to |
| `TrapStack.StatusWriteLands` | src/csr_regfile.sv:402-462 | each enable and saved level of the status register is a definite bit of the word written to mstatus; sstatus reaches the supervisor's three within its mask; no other write touches them |
| `TrapStack.DelegationWriteLands` | src/csr_regfile.sv:467-482 | a write of medeleg or mideleg sets exactly the delegable bits of its own register |
| `TrapStack.EnableWriteLands` | src/csr_regfile.sv:416-486 | a write of mie or sie sets exactly the enables it may |
| `TrapStack.PendingWriteLands` | src/csr_regfile.sv:421-548 | of the pending bits 3, 7 and 11 are the pins; the others change only by a write of mip or sip that may |
| `TrapStack.SatpWriteLands` | src/csr_regfile.sv:434-448 | a write of satp takes effect exactly for modes 0 and 8, and not from supervisor mode under tvm |
| `TrapStack.DelegationHolds` | src/csr_regfile.sv:467-614 | after a write of medeleg or mideleg a trap goes to supervisor mode if and only if its number can be delegated, its bit was one and the hart is not in machine mode; either way the right enable and level are pushed |
| `TrapStack.TrapGoes` | src/csr_regfile.sv:552-614 | one trap: its level, and what it saves whatever is written in its cycle |
| `TrapStack.DebuggerSettingsHold` | src/csr_regfile.sv:382-734 | after the debugger's write of dcsr and the return, a cycle enters debug mode exactly for a request that finds an instruction, for a retired one with bit 2 set, or for a breakpoint with the bit of its level set |
| `TrapStack.DebugReturn` | src/csr_regfile.sv:624-734 | the return from debug mode restores the level at entry if and only if the debugger has not written dcsr or the entry changed no level |
| `TrapStack.BreakpointLevelIsLost` | src/csr_regfile.sv:382-392 | a breakpoint from user mode and a write of dcsr: the program goes on in machine mode |
| `TrapStack.CsrFile.TrapEntry` | src/csr_regfile.sv:552-614 | delegation, target level and the pushed status, on top of a CSR write of the same cycle |
| `TrapStack.CsrFile.DebugEntry` | src/csr_regfile.sv:624-686 | when debug mode is entered: breakpoint by level, request, single step |
| `TrapStack.CsrFile.Step` | src/csr_regfile.sv:261-745 | the ordered overrides of a cycle give the next state, and keep registers legal and levels from falling |
| `Encoding.LoadRoundTrip` | tb/dpi/fesvr/dtm.cc:10-25 | decoding undoes the load encoder for all registers, widths and 12-bit immediates |
| `Encoding.StoreRoundTrip` | tb/dpi/fesvr/dtm.cc:14-28 | the same for the store encoder with its split immediate |
| `Encoding.AddiRoundTrip` | tb/dpi/fesvr/dtm.cc:31 | the same for addi |
| `Encoding.BneRoundTrip` | tb/dpi/fesvr/dtm.cc:16-30 | the same for bne and every even 13-bit offset |
| `Bytes.EncodeValue` | tb/dpi/fesvr/dtm.cc:244 | little-endian bytes of a number and the number of the bytes undo each other |
| `Bytes.WordsOfValue` | tb/dpi/fesvr/dtm.cc:294 | copying bytes into 32-bit words gives the words of their little-endian value |
| `Hart.RunAdd` | tb/dpi/fesvr/dtm.cc:352-391 | running a program in two parts is running it |
| `DebugPrograms.ReadProgramDecodes` | tb/dpi/fesvr/dtm.cc:216-218 | the three words of the read program are load, increment, ebreak |
| `DebugPrograms.WriteProgramDecodes` | tb/dpi/fesvr/dtm.cc:269-271 | the three words of the write program are store, increment, ebreak |
| `DebugPrograms.ClearProgramDecodes` | tb/dpi/fesvr/dtm.cc:373-376 | the four words of the clear program are store of zero, increment, branch back to the start, ebreak |
| `DebugPrograms.ReadProgramRuns` | tb/dpi/fesvr/dtm.cc:216-218 | run from a word-aligned S0, it ends after three steps with the word in S1 and S0 one word on |
| `DebugPrograms.WriteProgramRuns` | tb/dpi/fesvr/dtm.cc:269-271 | run from a word-aligned S0, it ends after three steps with S1 stored and S0 one word on |
| `DebugPrograms.ClearLoop` | tb/dpi/fesvr/dtm.cc:352-391 | for every number of words above zero the loop ends after three steps a word and one more, with exactly the range zeroed, also when the range ends at the top of the address space |
| `DebugModule.OutcomeStep` | src/debug/dm_mem.sv:103-162 | however long a command or a halt or resume request waits, each step brings the module closer to the same outcome |
| `DebugModule.FinishedEnds` | src/debug/dm_mem.sv:103-162 | a command's outcome does not depend on its delay |
| `DebugModule.ReadThenRun` | src/debug/dm_mem.sv:279-370 | an Access Register read with postexec delivers the register and then runs the program buffer |
| `DebugModule.WriteThenRun` | src/debug/dm_mem.sv:279-370 | an Access Register write with postexec sets the register and then runs the program buffer |
| `DebugModule.WriteLowWord` | src/debug/dm_csrs.sv:299-306 | with autoexec bit 0 set, writing data word 0 runs the last command again |
| `DebugModule.WriteHighWord` | src/debug/dm_csrs.sv:299-306 | and writing data word 1 does not |
| `AbstractCommands.CommandMeans` | tb/dpi/fesvr/dtm.cc:39-40 | the module reads size, register and flags out of the command word as the host put them in, for every combination |
| `AbstractCommands.AskWordMeans` | tb/dpi/fesvr/dtm.cc:100-130 | the four words written to dmcontrol select the hart and ask, or stop asking, for what they should |
| `AbstractCommands.PolledStatus` | tb/dpi/fesvr/dtm.cc:183-195 | the busy flag and error code read from abstractcs are the module's |
| `AbstractCommands.ReadingGoesOn` | tb/dpi/fesvr/dtm.cc:237-247 | the fetched bytes are the word in hand, and running the program again brings up the next |
| `AbstractCommands.StoringGoesOn` | tb/dpi/fesvr/dtm.cc:286-318 | giving S1 the next word stores it at its place and moves on |
| `AbstractCommands.Cleared` | tb/dpi/fesvr/dtm.cc:372-385 | setting S1 to the end of the range runs the loop to its end |
| `Dtm.CsrResultIsValue` | tb/dpi/fesvr/dtm.cc:446-448 | the joined result words are the CSR's value if and only if its upper half is zero |
| `Dtm.CsrResultCounterexample` | tb/dpi/fesvr/dtm.cc:446-448 | words 0 and 1 join to 1 |
| `Dtm.Host.Halt` | tb/dpi/fesvr/dtm.cc:100-114 | the hart is halted and nothing else has changed, however long it takes |
| `Dtm.Host.Resume` | tb/dpi/fesvr/dtm.cc:116-130 | the hart runs and nothing else has changed |
| `Dtm.Host.RunAbstractCommand` | tb/dpi/fesvr/dtm.cc:162-197 | program and data are written, the command issued and awaited: the target is where the command leaves it, with the module's error code and data returned |
| `Dtm.Host.RunAcOrDie` | tb/dpi/fesvr/dtm.cc:50-55 | the same, and an error is cleared |
| `Dtm.Host.SaveReg` | tb/dpi/fesvr/dtm.cc:132-143 | returns the register and leaves registers and memory alone |
| `Dtm.Host.RestoreReg` | tb/dpi/fesvr/dtm.cc:145-160 | sets exactly that register |
| `Dtm.Host.GetXlen` | tb/dpi/fesvr/dtm.cc:460-492 | finds the register width of the hart and leaves no error behind |
| `Dtm.Host.ReadChunk` | tb/dpi/fesvr/dtm.cc:204-255 | the buffer receives exactly the chunk; memory and all registers are as before |
| `Dtm.Host.WriteChunk` | tb/dpi/fesvr/dtm.cc:257-328 | memory changes exactly in the chunk, to the buffer's bytes; all registers are as before, rerunning is off, no command failed |
| `Dtm.Host.ClearChunk` | tb/dpi/fesvr/dtm.cc:352-391 | memory changes exactly in the range, to zero; all registers are as before |
| `Dtm.Host.WriteNext` | tb/dpi/fesvr/dtm.cc:299-316 | a word stored by rerunning the last command through the data registers |
| `Memif.Memory.Read` | tb/dpi/fesvr/memif.cc:9-40 | for every address and length the buffer receives exactly the bytes of the range and nothing else changes, hart registers included; every chunk call is aligned and bounded |
| `Memif.Memory.Write` | tb/dpi/fesvr/memif.cc:42-84 | for every address and length memory changes exactly in the range, to the given bytes, and nothing else changes; every chunk call is aligned and bounded, and the clear command is never used with length 0 |
| `Memif.Memory.ReadUint` | tb/dpi/fesvr/memif.cc:86-178 | a typed read is an error if and only if misaligned, and otherwise the little-endian value |
| `Memif.Memory.ReadInt` | tb/dpi/fesvr/memif.cc:86-173 | the same, in two's complement |
| `Memif.Memory.WriteUint` | tb/dpi/fesvr/memif.cc:92-183 | a misaligned typed write changes nothing; any other stores exactly the value's bytes |
| `Memif.LastWriteWins` | tb/dpi/fesvr/memif.cc:42-84 | of a byte string: after any series of splices a byte is that of the last one covering it, or the first value |
| `Memif.WriteSeriesThenRead` | tb/dpi/fesvr/memif.cc:9-84 | any series of write calls followed by a read call: each byte read is that of the last write covering it, or what memory held at first, and the hart's registers are as before |
| `Memif.TypedRoundTrip` | tb/dpi/fesvr/memif.cc:86-183 | of a byte string: the value's bytes spliced in read back as the value, and ranges apart do not notice |
| `Memif.WriteThenReadUint` | tb/dpi/fesvr/memif.cc:86-183 | a typed write call followed by typed read calls: the same place returns the value, any place apart what it returned before, and a misaligned write changes no answer |
| `Memif.WriteThenReadInt` | tb/dpi/fesvr/memif.cc:103-183 | a signed number written and read back is itself, for every number the width can hold; misaligned, both calls fail |
| `Memif.SignedInRange` | tb/dpi/fesvr/memif.cc:103-173 | what a signed read returns is in the width's range and congruent to the stored value |
| `Memif.WriteThenReadByte` | tb/dpi/fesvr/memif.cc:86-183 | byte k of a typed value is its k-th digit to base 256: least significant first |
| `Memif.DeliveredUpwards` | tb/dpi/fesvr/memif.cc:42-84 | writing back a word read before, with part of it replaced, changes only that part |
| `Handoff.CallsAreCarriedInOrder` | tb/dpi/fesvr/dtm.cc:57-63 | over any ticks whose responses answer accepted requests, the accepted requests are the host's calls in order, each once, at most one outstanding, the k-th made knowing the first k answers |
| `Handoff.RequestsAreTaken` | tb/dpi/fesvr/dtm.cc:597-620 | a waiting call is accepted at the first ready tick after it is raised, and not before |
| `Handoff.Dtm.Tick` | tb/dpi/fesvr/dtm.cc:597-620 | the two flags follow the handoff machine, and the bus sees the current call while it waits |

## Left out

- Memif.Memory.Read: memory is a whole number of words with no holes or devices; a range outside it is not modelled.
- Dtm.Host.ReadChunk: the chunk operations require a nonzero length, a multiple of the word size, aligned and at most 4096 bytes, which is what their only caller gives them; for length 0 the source would read, write or loop over words outside the range.
- Dtm.Host.Halt: a hart that is not halted does not change memory or registers, so a program running between two chunk operations is not captured.
- Dtm.Host.Read: time passes on the bus only at reads, and every read lets at least one step pass; a module that never answers is not modelled.
- DebugModule.OutcomeStep: only Access Register on general-purpose registers in full width; quick access, memory access, CSR and floating-point access commands are reported as not supported.
- CSR access programs, `fence_i`, hart enumeration and reset in `tb/dpi/fesvr/dtm.cc`; of `modify_csr` only the joining of the result words is modelled.
- Handoff.CallsAreCarriedInOrder: the host thread and context switching are a function from responses to the next request.
- Scoreboard.RunsAreSequential: no exceptions, interrupts or debug entry; general-purpose registers only; no floating-point operands; register renaming off; no instruction reads the destination of an AMO that is still in flight (Scoreboard.AmoConsumerGetsPlaceholder says what happens if one does); valid writebacks name instructions in flight and carry the right result; an AMO response comes only while an AMO is the oldest instruction and carries its result; the CSR data read at the commit of a CSR instruction are its result; the data-cache flush request of the commit stage is low.
- StoreBuffer.LoadsSeeProgramOrder: the page-offset check is a premise on the load; how the load unit waits and retries is not modelled.
- StoreUnit.StoresReachCacheInOrder: data alignment and byte enables are functions of the package and enter as inputs.
- StoreUnit.BackpressureIsSound: the commit side keeps the rules of the assertions in `src/store_buffer.sv`.
- LsuBypass.NeverMoreThanTwo: one pop at a time and only of a present request, as the load/store unit gives them.
- PageTableWalker.WalkIsSpecified: a fixed page table, and a data access that does not change between its miss and the look at an entry; that the cache grants and answers in the end is up to the cache; the TLBs themselves, the page-fault routing of the data interface and the canonical-address check are not modelled.
- InstrRealigner.Realigner.Step: no branch prediction and no instruction page faults; a fetch word behind a taken branch is not modelled. A word whose upper half is due stays on the inputs until it is taken, as the fetch queue keeps it; the source offers that half whether it is there or not, which the contract states.
- AxiAdapter.WriteIsDoneOnce: bursts of at least two beats; error responses and the atomic opcode are not modelled.
- MultiplyDivide.EachComesOutOnce: runs without a flush, which drops what is inside; a division is issued only to an idle divider, as the issue stage does.
- FluPort.ResultsLeaveInIssueOrder: runs with a flush keep one result a cycle but may drop results, which the lemma does not count.
- FluPort.PortIsNeverContended: how many cycles a division takes is an input here; SerialDivider counts them.
- FluPort.CsrAddressIsKept: a CSR commit comes only for an address in the buffer; a fence that waits for the stores holds the signal for longer, which is not modelled.
- StoreUnit.AmosReachCacheInOrder: that the cache answers an AMO only after its request is up to the cache.
- TrapStack.SupervisorReturnRestores: vectoring, trap values, counters, floating-point state and `dcsr` cause fields are not modelled; which bits a write to `sstatus` reaches is a parameter limited to the supervisor bits.
- CompressedEffect.ExpansionHasTheEffect: no misaligned-address or access exceptions; memory cells hold bytes and any address exists.
- Compressed.ExpansionMeansTheSame: floating-point loads and stores are left out; among them, `c.fldsp` to f0 is flagged as illegal by the source.
- Reset timing, clock gating, unknown values, tracing, performance counters, caches, TLB contents, the floating-point unit, and the vendor extensions.
- The load unit, ALU, branch unit and register file, which would add only easy members.
