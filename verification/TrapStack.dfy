/**
  The control and status registers of src/csr_regfile.sv that hold the
  privilege level, the interrupt-enable stack, delegation and the legal-value
  masks: CSR writes, trap entry, entry to debug mode and the three returns, in
  the order in which the source lets them override one another.

  Which status bits a write to sstatus reaches is a package constant that is
  not part of this model; it is the parameter `mask`.
*/
module TrapStack {

  // U is 0, S is 1, M is 3; 2 is a reserved encoding.
  type Priv = p: nat | p < 4

  const U: Priv := 0
  const S: Priv := 1
  const M: Priv := 3

  datatype Status = Status(sie: bool, mie: bool, spie: bool, mpie: bool, spp: bool, mpp: Priv)

  datatype Dcsr = Dcsr(ebreakm: bool, ebreaks: bool, ebreaku: bool, step: bool, prv: Priv)

  // A mask register, as the set of the bits that are one.
  type Bits = set<nat>

  datatype Csrs = Csrs(
    priv: Priv, debug: bool, status: Status, dcsr: Dcsr,
    medeleg: Bits, mideleg: Bits, mie: Bits, mip: Bits, satpMode: nat)

  datatype Register =
    | Mstatus | Sstatus | Satp | Medeleg | Mideleg | Mie | Sie | Mip | Sip | DcsrRegister | Another

  // The write data is that of the operation: written, set or cleared.
  datatype Op = NoOp | Write(register: Register, data: bv64) | Sret | Mret | Dret

  datatype Trap = NoTrap | Trap(interrupt: bool, code: nat)

  // `tvm` is the status bit that makes supervisor writes of satp fail.
  datatype Input = Input(
    op: Op, trap: Trap, external: bool, software: bool, timer: bool,
    debugRequest: bool, commits: bool, retires: bool,
    tvm: bool)

  datatype Mask = Mask(sie: bool, spie: bool, spp: bool)

  const SSIP: nat := 1
  const MSIP: nat := 3
  const STIP: nat := 5
  const MTIP: nat := 7
  const SEIP: nat := 9
  const MEIP: nat := 11

  const DELEGABLE: Bits := {0, 3, 8, 12, 13, 15}
  const SUPERVISOR_INTERRUPTS: Bits := {SSIP, STIP, SEIP}
  const ENABLED_INTERRUPTS: Bits := {SSIP, STIP, SEIP, MSIP, MTIP}

  const BREAKPOINT: nat := 3

  // ---------- CSR writes ----------

  function Bit(w: bv64, mask: bv64): bool {
    w & mask != 0
  }

  function PrivOf(w: bv64): Priv {
    (if Bit(w, 0x1000) then 2 else 0) + (if Bit(w, 0x800) then 1 else 0)
  }

  function StatusOf(w: bv64): Status {
    Status(Bit(w, 0x2), Bit(w, 0x8), Bit(w, 0x20), Bit(w, 0x80), Bit(w, 0x100), PrivOf(w))
  }

  // The bits of w below position n.
  function BitsBelow(w: bv64, n: nat): Bits
    requires n <= 64
  {
    if n == 0 then {} else BitsBelow(w, n - 1) + if (w >> (n - 1)) & 1 == 1 then {n - 1} else {}
  }

  function BitsOf(w: bv64): Bits {
    BitsBelow(w, 64)
  }

  function Masked(before: Bits, w: bv64, mask: Bits): Bits {
    (before - mask) + (BitsOf(w) * mask)
  }

  // Debug mode executes at level M.
  function Level(s: Csrs): Priv {
    if s.debug then M else s.priv
  }

  function SatpNext(s: Csrs, w: bv64, tvm: bool): nat {
    var mode := (w >> 60) as nat;
    if Level(s) == S && tvm then s.satpMode else if mode == 0 || mode == 8 then mode else s.satpMode
  }

  function Written(mask: Mask, s: Csrs, op: Op, tvm: bool): Csrs {
    match op
    case Write(Mstatus, w) => s.(status := StatusOf(w))
    case Write(Sstatus, w) =>
      s.(status := s.status.(
        sie := if mask.sie then Bit(w, 0x2) else s.status.sie,
        spie := if mask.spie then Bit(w, 0x20) else s.status.spie,
        spp := if mask.spp then Bit(w, 0x100) else s.status.spp))
    case Write(Satp, w) => s.(satpMode := SatpNext(s, w, tvm))
    case Write(Medeleg, w) => s.(medeleg := Masked(s.medeleg, w, DELEGABLE))
    case Write(Mideleg, w) => s.(mideleg := Masked(s.mideleg, w, SUPERVISOR_INTERRUPTS))
    case Write(Mie, w) => s.(mie := Masked(s.mie, w, ENABLED_INTERRUPTS))
    case Write(Sie, w) => s.(mie := Masked(s.mie, w, s.mideleg))
    case Write(Mip, w) => s.(mip := Masked(s.mip, w, SUPERVISOR_INTERRUPTS))
    case Write(Sip, w) => s.(mip := Masked(s.mip, w, {SSIP} * s.mideleg))
    case Write(DcsrRegister, w) =>
      s.(dcsr := Dcsr(Bit(w, 0x8000), Bit(w, 0x2000), Bit(w, 0x1000), Bit(w, 0x4), s.priv))
    case _ => s
  }

  // The interrupt pins go straight to the machine-level pending bits.
  function Pins(mip: Bits, i: Input): Bits {
    mip - {MSIP, MTIP, MEIP}
    + (if i.software then {MSIP} else {})
    + (if i.timer then {MTIP} else {})
    + (if i.external then {MEIP} else {})
  }

  // ---------- Traps ----------

  predicate Delegated(s: Csrs, t: Trap)
    requires t.Trap?
  {
    t.code in (if t.interrupt then s.mideleg else s.medeleg)
  }

  function TrapTo(s: Csrs, t: Trap): Priv
    requires t.Trap?
  {
    if Delegated(s, t) && Level(s) != M then S else M
  }

  // Trap entry pushes the interrupt enable and the level.
  function Pushed(written: Status, s: Csrs, to: Priv): Status {
    if to == S then written.(sie := false, spie := s.status.sie, spp := s.priv % 2 == 1)
    else written.(mie := false, mpie := s.status.mie, mpp := s.priv)
  }

  predicate Traps(s: Csrs, i: Input) {
    i.trap.Trap? && !s.debug
  }

  predicate EntersDebug(s: Csrs, i: Input) {
    !s.debug &&
      ((i.debugRequest && i.commits) || (s.dcsr.step && i.retires) ||
       (i.trap == Trap(false, BREAKPOINT) &&
        ((s.priv == M && s.dcsr.ebreakm) || (s.priv == S && s.dcsr.ebreaks) || (s.priv == U && s.dcsr.ebreaku))))
  }

  // ---------- One cycle ----------

  function Next(mask: Mask, s: Csrs, i: Input): Csrs {
    var w := Written(mask, s, i.op, i.tvm);
    var ret := if i.trap.Trap? then NoOp else i.op;
    var level := if Traps(s, i) then TrapTo(s, i.trap) else s.priv;
    var status := if Traps(s, i) then Pushed(w.status, s, level) else w.status;
    w.(
      mip := Pins(w.mip, i),
      dcsr := if s.debug then w.dcsr else w.dcsr.(prv := Level(s)),
      debug := (s.debug || EntersDebug(s, i)) && !ret.Dret?,
      status :=
        (match ret
         case Mret => status.(mie := s.status.mpie, mpp := U, mpie := true)
         case Sret => status.(sie := s.status.spie, spp := false, spie := true)
         case _ => status),
      priv :=
        (match ret
         case Mret => s.status.mpp
         case Sret => if s.status.spp then S else U
         case Dret => s.dcsr.prv
         case _ => level))
  }

  // ---------- Traps never lower the privilege level ----------

  lemma TrapsNeverLower(mask: Mask, s: Csrs, i: Input)
    requires Traps(s, i)
    ensures Next(mask, s, i).priv >= s.priv <==> !(s.priv == 2 && Delegated(s, i.trap))
  {
  }

  // The reserved level is reachable: software writes it to mpp and returns.
  lemma ReservedLevelIsReachable(mask: Mask, s: Csrs)
    requires !s.debug && !s.dcsr.step
    ensures var write := Input(Write(Mstatus, 0x1000), NoTrap, false, false, false, false, false, false, false);
            var s1 := Next(mask, s, write);
            Next(mask, s1, write.(op := Mret)).priv == 2
  {
  }

  // ---------- Registers keep legal values ----------

  predicate Legal(s: Csrs) {
    && (s.satpMode == 0 || s.satpMode == 8)
    && s.medeleg <= DELEGABLE && s.mideleg <= SUPERVISOR_INTERRUPTS
    && s.mie <= ENABLED_INTERRUPTS
    && s.mip <= ENABLED_INTERRUPTS + {MEIP}
  }

  lemma WrittenLegal(mask: Mask, s: Csrs, op: Op, tvm: bool)
    requires Legal(s)
    ensures Legal(Written(mask, s, op, tvm))
  {
  }

  lemma NextLegal(mask: Mask, s: Csrs, i: Input)
    requires Legal(s)
    ensures Legal(Next(mask, s, i))
  {
    WrittenLegal(mask, s, i.op, i.tvm);
  }

  function Run(mask: Mask, s: Csrs, run: seq<Input>): Csrs
    decreases |run|
  {
    if run == [] then s else Run(mask, Next(mask, s, run[0]), run[1..])
  }

  // At reset the core is in machine mode with everything off.
  predicate Reset(s: Csrs) {
    s.priv == M && !s.debug && s.medeleg == {} && s.mideleg == {} && s.mie == {} && s.mip == {} && s.satpMode == 0
  }

  lemma {:induction false} RunsAreLegal(mask: Mask, s: Csrs, run: seq<Input>)
    requires Legal(s)
    ensures Legal(Run(mask, s, run))
    decreases |run|
  {
    if run == [] {
    } else {
      NextLegal(mask, s, run[0]);
      RunsAreLegal(mask, Next(mask, s, run[0]), run[1..]);
    }
  }

  // In every run from reset: a trap reaches supervisor mode only from below
  // machine mode and only for the six exceptions and three interrupts that can
  // be delegated, and machine external interrupts are never enabled.
  lemma ReachableTraps(mask: Mask, s: Csrs, run: seq<Input>, t: Trap)
    requires Reset(s) && t.Trap?
    ensures var end := Run(mask, s, run);
            && (TrapTo(end, t) == S ==>
                  end.priv != M && t.code in (if t.interrupt then SUPERVISOR_INTERRUPTS else DELEGABLE))
            && MEIP !in end.mie
  {
    RunsAreLegal(mask, s, run);
  }

  // ---------- Handlers nest ----------

  predicate TouchesStatus(op: Op) {
    op.Sret? || op.Mret? || op.Dret? ||
    (op.Write? && (op.register.Mstatus? || op.register.Sstatus? || op.register.DcsrRegister?))
  }

  // An instruction of a handler: no trap, no write of a status register, no
  // return, and the hart stays out of debug mode.
  predicate Calm(s: Csrs, i: Input) {
    i.trap.NoTrap? && !TouchesStatus(i.op) && !s.debug && !EntersDebug(s, i)
  }

  predicate CalmRun(mask: Mask, s: Csrs, run: seq<Input>)
    decreases |run|
  {
    run == [] || (Calm(s, run[0]) && CalmRun(mask, Next(mask, s, run[0]), run[1..]))
  }

  predicate Enters(s: Csrs, i: Input) {
    i.trap.Trap? && !TouchesStatus(i.op) && !s.debug && !EntersDebug(s, i)
  }

  predicate Returns(s: Csrs, i: Input, op: Op) {
    i.trap.NoTrap? && i.op == op && !s.debug && !EntersDebug(s, i)
  }

  lemma {:induction false} CalmKeeps(mask: Mask, s: Csrs, run: seq<Input>)
    requires CalmRun(mask, s, run) && !s.debug
    ensures var end := Run(mask, s, run);
            end.priv == s.priv && end.status == s.status && !end.debug && end.dcsr.step == s.dcsr.step
    decreases |run|
  {
    if run == [] {
    } else {
      CalmKeeps(mask, Next(mask, s, run[0]), run[1..]);
    }
  }

  // A trap to machine mode, its handler, and the return.
  datatype Handled = Handled(entry: Input, body: seq<Input>, ret: Input)

  predicate MachineHandled(mask: Mask, s: Csrs, h: Handled) {
    && Enters(s, h.entry) && TrapTo(s, h.entry.trap) == M
    && var inside := Next(mask, s, h.entry);
       CalmRun(mask, inside, h.body) && Returns(Run(mask, inside, h.body), h.ret, Mret)
  }

  function AfterHandled(mask: Mask, s: Csrs, h: Handled): Csrs {
    Next(mask, Run(mask, Next(mask, s, h.entry), h.body), h.ret)
  }

  // The return restores level and interrupt enable, and nothing about
  // supervisor mode has changed.
  lemma MachineReturnRestores(mask: Mask, s: Csrs, h: Handled)
    requires MachineHandled(mask, s, h)
    ensures var end := AfterHandled(mask, s, h);
            end.priv == s.priv && !end.debug && end.status == s.status.(mpie := true, mpp := U)
  {
    var inside := Next(mask, s, h.entry);
    CalmKeeps(mask, inside, h.body);
  }

  // What a supervisor handler is made of: instructions, and traps to machine
  // mode that are handled and returned from.
  datatype Activity = Plain(i: Input) | Nested(h: Handled)

  predicate Proper(mask: Mask, s: Csrs, a: Activity) {
    match a
    case Plain(i) => Calm(s, i)
    case Nested(h) => MachineHandled(mask, s, h)
  }

  function Perform(mask: Mask, s: Csrs, a: Activity): Csrs {
    match a
    case Plain(i) => Next(mask, s, i)
    case Nested(h) => AfterHandled(mask, s, h)
  }

  predicate ProperRun(mask: Mask, s: Csrs, acts: seq<Activity>)
    decreases |acts|
  {
    acts == [] || (Proper(mask, s, acts[0]) && ProperRun(mask, Perform(mask, s, acts[0]), acts[1..]))
  }

  function PerformAll(mask: Mask, s: Csrs, acts: seq<Activity>): Csrs
    decreases |acts|
  {
    if acts == [] then s else PerformAll(mask, Perform(mask, s, acts[0]), acts[1..])
  }

  // All but the machine-level save slots.
  predicate SameBelowMachine(end: Csrs, s: Csrs) {
    end.priv == s.priv && end.debug == s.debug && end.status.(mpie := s.status.mpie, mpp := s.status.mpp) == s.status
  }

  lemma {:induction false} ActivitiesKeep(mask: Mask, s: Csrs, acts: seq<Activity>)
    requires ProperRun(mask, s, acts) && !s.debug
    ensures SameBelowMachine(PerformAll(mask, s, acts), s)
    decreases |acts|
  {
    if acts == [] {
    } else {
      var next := Perform(mask, s, acts[0]);
      match acts[0] {
        case Plain(i) =>
        case Nested(h) => MachineReturnRestores(mask, s, h);
      }
      assert SameBelowMachine(next, s);
      ActivitiesKeep(mask, next, acts[1..]);
    }
  }

  // A trap to supervisor mode whose handler is made of such activities: the
  // return restores both interrupt enables, and the level unless it was the
  // reserved one, whose second bit the one-bit save slot has no room for.
  lemma SupervisorReturnRestores(mask: Mask, s: Csrs, entry: Input, acts: seq<Activity>, ret: Input)
    requires Enters(s, entry) && TrapTo(s, entry.trap) == S
    requires var inside := Next(mask, s, entry);
             ProperRun(mask, inside, acts) && Returns(PerformAll(mask, inside, acts), ret, Sret)
    ensures var end := Next(mask, PerformAll(mask, Next(mask, s, entry), acts), ret);
            && end.status.sie == s.status.sie && end.status.mie == s.status.mie && !end.debug
            && (end.priv == s.priv <==> s.priv != 2)
  {
    var inside := Next(mask, s, entry);
    SupervisorEntryPushes(mask, s, entry);
    ActivitiesKeep(mask, inside, acts);
    SupervisorReturnPops(mask, PerformAll(mask, inside, acts), ret);
  }

  lemma SupervisorEntryPushes(mask: Mask, s: Csrs, entry: Input)
    requires Enters(s, entry) && TrapTo(s, entry.trap) == S
    ensures var inside := Next(mask, s, entry);
      && inside.priv == S && !inside.debug
      && inside.status == s.status.(sie := false, spie := s.status.sie, spp := s.priv % 2 == 1)
  {
  }

  lemma SupervisorReturnPops(mask: Mask, s: Csrs, ret: Input)
    requires Returns(s, ret, Sret)
    ensures var end := Next(mask, s, ret);
      && end.priv == (if s.status.spp then S else U) && !end.debug
      && end.status == s.status.(sie := s.status.spie, spp := false, spie := true)
  {
  }

  // One save slot a mode: a machine trap inside a machine handler that has not
  // saved it loses the level to return to.
  lemma SecondMachineTrapLosesTheLevel(mask: Mask, s: Csrs, trap: Input, ret: Input)
    requires !s.debug && s.priv == S && !s.dcsr.step && s.medeleg == {}
    requires trap == Input(NoOp, Trap(false, 2), false, false, false, false, false, false, false)
    requires ret == trap.(op := Mret, trap := NoTrap)
    ensures Next(mask, Next(mask, s, trap), ret).priv == S
    ensures Run(mask, s, [trap, trap, ret]).priv == M
    ensures Run(mask, s, [trap, trap, ret, ret]).priv == U
  {
    var s1 := Next(mask, s, trap);
    var s2 := Next(mask, s1, trap);
    var s3 := Next(mask, s2, ret);
    assert [trap, trap, ret][1..] == [trap, ret] && [trap, ret][1..] == [ret] && [ret][1..] == [];
    assert [trap, trap, ret, ret][1..] == [trap, ret, ret] && [trap, ret, ret][1..] == [ret, ret];
    assert [ret, ret][1..] == [ret];
    assert Run(mask, s3, []) == s3;
    assert Run(mask, s2, [ret]) == s3;
    assert Run(mask, s1, [trap, ret]) == s3;
    assert Run(mask, s3, [ret]) == Next(mask, s3, ret);
    assert Run(mask, s2, [ret, ret]) == Next(mask, s3, ret);
    assert Run(mask, s1, [trap, ret, ret]) == Next(mask, s3, ret);
  }

  // ---------- Where written bits go ----------

  predicate One(w: bv64, n: nat)
    requires n < 64
  {
    (w >> n) & 1 == 1
  }

  lemma {:induction false} BelowAreTheOnes(w: bv64, top: nat, n: nat)
    requires top <= 64
    ensures n in BitsBelow(w, top) <==> n < top && One(w, n)
  {
    if top > 0 {
      BelowAreTheOnes(w, top - 1, n);
    }
  }

  lemma StatusBits(w: bv64)
    ensures Bit(w, 0x2) == ((w >> 1) & 1 == 1) && Bit(w, 0x8) == ((w >> 3) & 1 == 1)
    ensures Bit(w, 0x20) == ((w >> 5) & 1 == 1) && Bit(w, 0x80) == ((w >> 7) & 1 == 1)
    ensures Bit(w, 0x100) == ((w >> 8) & 1 == 1)
    ensures Bit(w, 0x1000) == ((w >> 12) & 1 == 1) && Bit(w, 0x800) == ((w >> 11) & 1 == 1)
  {
  }

  lemma DebugBits(w: bv64)
    ensures Bit(w, 0x8000) == ((w >> 15) & 1 == 1) && Bit(w, 0x2000) == ((w >> 13) & 1 == 1)
    ensures Bit(w, 0x4) == ((w >> 2) & 1 == 1)
  {
  }

  // Each enable of mstatus is a bit of the word written, the level to return to
  // its bits 12 and 11; sstatus reaches the supervisor's three within its mask.
  lemma StatusWriteLands(mask: Mask, s: Csrs, i: Input)
    requires i.op.Write? && i.trap.NoTrap?
    ensures var w, st := i.op.data, Next(mask, s, i).status;
      && (i.op.register.Mstatus? ==>
            && st.sie == ((w >> 1) & 1 == 1) && st.mie == ((w >> 3) & 1 == 1)
            && st.spie == ((w >> 5) & 1 == 1) && st.mpie == ((w >> 7) & 1 == 1)
            && st.spp == ((w >> 8) & 1 == 1)
            && (st.mpp >= 2 <==> ((w >> 12) & 1 == 1)) && (st.mpp % 2 == 1 <==> ((w >> 11) & 1 == 1)))
      && (i.op.register.Sstatus? ==>
            && st.mie == s.status.mie && st.mpie == s.status.mpie && st.mpp == s.status.mpp
            && st.sie == (if mask.sie then ((w >> 1) & 1 == 1) else s.status.sie)
            && st.spie == (if mask.spie then ((w >> 5) & 1 == 1) else s.status.spie)
            && st.spp == (if mask.spp then ((w >> 8) & 1 == 1) else s.status.spp))
      && (!i.op.register.Mstatus? && !i.op.register.Sstatus? ==> st == s.status)
  {
    StatusBits(i.op.data);
  }

  lemma MaskedBits(before: Bits, w: bv64, mask: Bits, n: nat)
    requires n < 64
    ensures n in Masked(before, w, mask) <==> if n in mask then One(w, n) else n in before
  {
    BelowAreTheOnes(w, 64, n);
  }

  // What can be delegated: exceptions 0, 3, 8, 12, 13, 15 and interrupts 1, 5, 9.
  predicate Delegable(interrupt: bool, n: nat) {
    if interrupt then n == 1 || n == 5 || n == 9 else n == 0 || n == 3 || n == 8 || n == 12 || n == 13 || n == 15
  }

  // The bits a write changes in the delegation registers.
  lemma DelegationWriteLands(mask: Mask, s: Csrs, i: Input, n: nat)
    requires i.op.Write? && n < 64
    ensures var w, r, d := One(i.op.data, n), i.op.register, Next(mask, s, i);
      && (n in d.medeleg <==> if r.Medeleg? && Delegable(false, n) then w else n in s.medeleg)
      && (n in d.mideleg <==> if r.Mideleg? && Delegable(true, n) then w else n in s.mideleg)
  {
    MaskedBits(s.medeleg, i.op.data, DELEGABLE, n);
    MaskedBits(s.mideleg, i.op.data, SUPERVISOR_INTERRUPTS, n);
  }

  // The bits a write changes in the interrupt enables.
  lemma EnableWriteLands(mask: Mask, s: Csrs, i: Input, n: nat)
    requires i.op.Write? && n < 64
    ensures var w, r := One(i.op.data, n), i.op.register;
      n in Next(mask, s, i).mie <==>
        if (r.Mie? && (Delegable(true, n) || n == 3 || n == 7)) || (r.Sie? && n in s.mideleg) then w else n in s.mie
  {
    MaskedBits(s.mie, i.op.data, ENABLED_INTERRUPTS, n);
    MaskedBits(s.mie, i.op.data, s.mideleg, n);
  }

  lemma PinBits(mip: Bits, i: Input, n: nat)
    ensures n in Pins(mip, i) <==>
              if n == 3 then i.software else if n == 7 then i.timer else if n == 11 then i.external else n in mip
  {
  }

  lemma PendingWritten(mask: Mask, s: Csrs, op: Op, tvm: bool, n: nat)
    requires op.Write? && n < 64
    ensures n in Written(mask, s, op, tvm).mip <==>
              if (op.register.Mip? && Delegable(true, n)) || (op.register.Sip? && n == 1 && n in s.mideleg)
              then One(op.data, n) else n in s.mip
  {
    MaskedBits(s.mip, op.data, SUPERVISOR_INTERRUPTS, n);
    MaskedBits(s.mip, op.data, {SSIP} * s.mideleg, n);
  }

  // The bits a write changes in the pending interrupts, and the pins.
  lemma PendingWriteLands(mask: Mask, s: Csrs, i: Input, n: nat)
    requires i.op.Write? && n < 64
    ensures var w, r := One(i.op.data, n), i.op.register;
      n in Next(mask, s, i).mip <==>
        if n == 3 then i.software else if n == 7 then i.timer else if n == 11 then i.external
        else if (r.Mip? && Delegable(true, n)) || (r.Sip? && n == 1 && n in s.mideleg) then w else n in s.mip
  {
    PendingWritten(mask, s, i.op, i.tvm, n);
    PinBits(Written(mask, s, i.op, i.tvm).mip, i, n);
  }

  // A write of satp takes effect exactly for the two modes there are, and not
  // from supervisor mode under tvm.
  lemma SatpWriteLands(mask: Mask, s: Csrs, i: Input)
    requires i.op.Write? && i.op.register.Satp? && s.satpMode in {0, 8}
    ensures var mode, d := i.op.data >> 60, Next(mask, s, i).satpMode;
      var barred := !s.debug && s.priv == 1 && i.tvm;
      && (!barred && mode == 0 ==> d == 0) && (!barred && mode == 8 ==> d == 8)
      && (barred || (mode != 0 && mode != 8) ==> d == s.satpMode)
  {
  }

  // The debugger's write of dcsr, the return to the program, and the cycle after
  // it: that cycle enters debug mode exactly for a request that finds an
  // instruction, for a retired one with bit 2 set, and for a breakpoint whose bit
  // is set: 15 for machine, 13 for supervisor, 12 for user mode.
  lemma DebuggerSettingsHold(mask: Mask, s: Csrs, write: Input, ret: Input, i: Input)
    requires s.debug && write.op.Write? && write.op.register.DcsrRegister? && write.trap.NoTrap?
    requires ret.op.Dret? && ret.trap.NoTrap? && !i.op.Dret?
    ensures var w, resumed := write.op.data, Run(mask, s, [write, ret]);
      && resumed.priv == s.priv && !resumed.debug
      && (Next(mask, resumed, i).debug <==>
            || (i.debugRequest && i.commits) || ((w >> 2) & 1 == 1 && i.retires)
            || (i.trap == Trap(false, 3) &&
                ((s.priv == 3 && (w >> 15) & 1 == 1) || (s.priv == 1 && (w >> 13) & 1 == 1)
                 || (s.priv == 0 && (w >> 12) & 1 == 1))))
  {
    DebugBits(write.op.data);
    StatusBits(write.op.data);
    var s1 := Next(mask, s, write);
    assert [write, ret][1..] == [ret] && [ret][1..] == [];
    assert Run(mask, Next(mask, s1, ret), []) == Next(mask, s1, ret);
    assert Run(mask, s1, [ret]) == Next(mask, s1, ret);
  }

  lemma OnlyDelegable(s: Csrs, n: nat)
    requires Legal(s)
    ensures n in s.medeleg ==> Delegable(false, n)
    ensures n in s.mideleg ==> Delegable(true, n)
  {
  }

  // Where a trap goes, and what it saves, whatever is written in its cycle.
  lemma TrapGoes(mask: Mask, s: Csrs, i: Input)
    requires !s.debug && i.trap.Trap?
    ensures var d := Next(mask, s, i);
      && (d.priv == 1 || d.priv == 3)
      && (d.priv == 1 <==>
            s.priv != 3 && i.trap.code in if i.trap.interrupt then s.mideleg else s.medeleg)
      && (d.priv == 3 ==> !d.status.mie && d.status.mpie == s.status.mie && d.status.mpp == s.priv)
      && (d.priv == 1 ==> !d.status.sie && d.status.spie == s.status.sie && d.status.spp == (s.priv == 1))
  {
  }

  // What software delegates is what is delegated: after a write of medeleg or
  // mideleg in which nothing else happens, a trap of number n goes to supervisor
  // mode exactly if n can be delegated, its bit was one, and the hart is not in
  // machine mode.
  lemma DelegationHolds(mask: Mask, s: Csrs, write: Input, i: Input)
    requires Legal(s) && !s.debug && !EntersDebug(s, write)
    requires write.op.Write? && write.trap.NoTrap? && i.trap.Trap? && i.trap.code < 64
    requires write.op.register == if i.trap.interrupt then Mideleg else Medeleg
    ensures var n, end := i.trap.code, Run(mask, s, [write, i]);
      && (end.priv == 1 <==> Delegable(i.trap.interrupt, n) && One(write.op.data, n) && s.priv != 3)
      && (end.priv == 1 || end.priv == 3)
      && (end.priv == 3 ==> !end.status.mie && end.status.mpie == s.status.mie && end.status.mpp == s.priv)
      && (end.priv == 1 ==> !end.status.sie && end.status.spie == s.status.sie && end.status.spp == (s.priv == 1))
  {
    var s1 := Next(mask, s, write);
    DelegationWriteLands(mask, s, write, i.trap.code);
    OnlyDelegable(s, i.trap.code);
    TrapGoes(mask, s1, i);
    assert [write, i][1..] == [i] && [i][1..] == [];
    assert Run(mask, Next(mask, s1, i), []) == Next(mask, s1, i);
    assert Run(mask, s1, [i]) == Next(mask, s1, i);
  }

  // ---------- Back from debug mode ----------

  // A debugger's instruction: no return; a trap among them changes nothing.
  predicate Debugging(i: Input) {
    i.trap.Trap? || i.op.NoOp? || i.op.Write?
  }

  predicate WritesDcsr(run: seq<Input>) {
    run != [] && ((run[0].op.Write? && run[0].op.register.DcsrRegister?) || WritesDcsr(run[1..]))
  }

  lemma {:induction false} DebuggingKeeps(mask: Mask, s: Csrs, run: seq<Input>)
    requires s.debug && forall k :: 0 <= k < |run| ==> Debugging(run[k])
    ensures var end := Run(mask, s, run);
      end.debug && end.priv == s.priv && end.dcsr.prv == if WritesDcsr(run) then s.priv else s.dcsr.prv
    decreases |run|
  {
    if run != [] {
      DebuggingKeeps(mask, Next(mask, s, run[0]), run[1..]);
    }
  }

  // Entry to debug mode, whatever the debugger does, and the return: the hart is
  // back at its level exactly if the debugger has not written dcsr, or the entry
  // was no trap or return to another level; otherwise it goes on at that level.
  lemma DebugReturn(mask: Mask, s: Csrs, entry: Input, body: seq<Input>, ret: Input)
    requires !s.debug && Next(mask, s, entry).debug && (forall k :: 0 <= k < |body| ==> Debugging(body[k]))
    requires ret.op.Dret? && ret.trap.NoTrap?
    ensures var inside := Next(mask, s, entry);
      var end := Next(mask, Run(mask, inside, body), ret);
      && !end.debug && (end.priv == s.priv <==> !WritesDcsr(body) || inside.priv == s.priv)
      && (WritesDcsr(body) ==> end.priv == inside.priv)
  {
    DebuggingKeeps(mask, Next(mask, s, entry), body);
  }

  // A breakpoint taken in user mode for debug mode is a trap as well: after the
  // debugger's write of dcsr the program goes on in machine mode.
  lemma BreakpointLevelIsLost(mask: Mask, s: Csrs, entry: Input, write: Input, ret: Input)
    requires !s.debug && s.priv == U && s.dcsr.ebreaku && s.medeleg == {}
    requires entry.trap == Trap(false, BREAKPOINT) && write.op.Write? && write.op.register.DcsrRegister?
    requires ret.op.Dret? && ret.trap.NoTrap?
    ensures Next(mask, Run(mask, Next(mask, s, entry), [write]), ret).priv == M
  {
    DebugReturn(mask, s, entry, [write], ret);
  }

  // ---------- The registers ----------

  class CsrFile {
    const mask: Mask
    var priv: Priv
    var debug: bool
    var status: Status
    var dcsr: Dcsr
    var medeleg: Bits
    var mideleg: Bits
    var mie: Bits
    var mip: Bits
    var satpMode: nat

    function Contents(): Csrs
      reads this
    {
      Csrs(priv, debug, status, dcsr, medeleg, mideleg, mie, mip, satpMode)
    }

    constructor (sstatusMask: Mask)
      ensures mask == sstatusMask && Reset(Contents()) && Legal(Contents())
    {
      mask := sstatusMask;
      priv, debug, status := M, false, Status(false, false, false, false, false, U);
      dcsr := Dcsr(false, false, false, false, M);
      medeleg, mideleg, mie, mip, satpMode := {}, {}, {}, {}, 0;
    }

    // Trap entry on top of what a CSR write did to the status.
    method TrapEntry(i: Input, written: Status) returns (level: Priv, next: Status)
      ensures level == if Traps(Contents(), i) then TrapTo(Contents(), i.trap) else priv
      ensures next == if Traps(Contents(), i) then Pushed(written, Contents(), level) else written
    {
      level, next := priv, written;
      if !debug && i.trap.Trap? {
        level := M;
        if (i.trap.interrupt && i.trap.code in mideleg) || (!i.trap.interrupt && i.trap.code in medeleg) {
          level := if priv == M then M else S;
        }
        if level == S {
          next := next.(sie := false, spie := status.sie, spp := priv % 2 == 1);
        } else {
          next := next.(mie := false, mpie := status.mie, mpp := priv);
        }
      }
    }

    method DebugEntry(i: Input) returns (next: bool)
      ensures next == (debug || EntersDebug(Contents(), i))
    {
      next := debug;
      if !debug {
        if i.trap == Trap(false, BREAKPOINT) {
          if priv == M {
            next := dcsr.ebreakm;
          } else if priv == S {
            next := dcsr.ebreaks;
          } else if priv == U {
            next := dcsr.ebreaku;
          }
        }
        if i.debugRequest && i.commits {
          next := true;
        }
        if dcsr.step && i.retires {
          next := true;
        }
      }
    }

    // One cycle: a CSR write, then the pins, trap entry, debug entry and the
    // returns, each overriding what came before.
    method Step(i: Input)
      modifies this
      ensures Contents() == Next(mask, old(Contents()), i)
      ensures Legal(old(Contents())) ==> Legal(Contents())
      ensures Traps(old(Contents()), i) && old(priv) in {U, S, M} ==> priv >= old(priv)
    {
      ghost var s := Contents();
      if Legal(s) {
        NextLegal(mask, s, i);
      }
      if Traps(s, i) {
        TrapsNeverLower(mask, s, i);
      }
      var w := Written(mask, Contents(), i.op, i.tvm);
      var level, st := TrapEntry(i, w.status);
      var nextDebug := DebugEntry(i);
      var d := if debug then w.dcsr else w.dcsr.(prv := priv);
      if i.trap.NoTrap? {
        if i.op.Mret? {
          st, level := st.(mie := status.mpie, mpp := U, mpie := true), status.mpp;
        }
        if i.op.Sret? {
          st, level := st.(sie := status.spie, spp := false, spie := true), if status.spp then S else U;
        }
        if i.op.Dret? {
          nextDebug, level := false, dcsr.prv;
        }
      }
      Latch(w.(mip := Pins(w.mip, i), dcsr := d, debug := nextDebug, status := st, priv := level));
    }

    method Latch(next: Csrs)
      modifies this
      ensures Contents() == next
    {
      priv, debug, status, dcsr := next.priv, next.debug, next.status, next.dcsr;
      medeleg, mideleg, mie, mip, satpMode := next.medeleg, next.mideleg, next.mie, next.mip, next.satpMode;
    }
  }
}
