/**
  The page-table walk of section 4.3.2 of the RISC-V Privileged Architecture
  v1.10 with the Sv39 parameters of section 4.4, and the MMU's composition of
  physical addresses from src/mmu.sv.
*/
module PageWalk {
  import opened Bits

  datatype Pte = Pte(v: bool, r: bool, w: bool, x: bool, u: bool, g: bool, a: bool, d: bool, rsw: nat, ppn: nat)

  type PageTable = nat -> Pte

  datatype Access = Fetch | Load(mxr: bool) | Store(mxr: bool)

  datatype Privilege = User | Supervisor(sum: bool)

  datatype Outcome = Fault | Leaf(pte: Pte, level: nat)

  // ---------- The specification ----------

  function Pages(level: nat): (r: nat)
    ensures r >= 1
  {
    if level == 0 then 1 else 512 * Pages(level - 1)
  }

  // Virtual page number field of a level.
  function Vpn(vaddr: nat, level: nat): nat {
    ((vaddr / 4096) / Pages(level)) % 512
  }

  function EntryAddress(ppn: nat, vaddr: nat, level: nat): nat {
    ppn * 4096 + Vpn(vaddr, level) * 8
  }

  // Is the access allowed by the page's permission, accessed and dirty bits?
  predicate Allows(access: Access, pte: Pte) {
    && pte.a
    && match access
       case Fetch => pte.x
       case Load(mxr) => pte.r || (pte.x && mxr)
       case Store(_) => pte.w && pte.d
  }

  // Is the page open to the privilege level? Supervisor code never runs from
  // user pages.
  predicate OpenTo(p: Privilege, access: Access, pte: Pte) {
    match p
    case User => pte.u
    case Supervisor(sum) => !pte.u || (sum && !access.Fetch?)
  }

  // The leaf check: in full, or without the user bit, which the walker leaves
  // to the TLB lookup.
  datatype Check = InFull(access: Access, p: Privilege) | WithoutUserBit(access: Access)

  predicate Passes(c: Check, pte: Pte) {
    Allows(c.access, pte) && (c.InFull? ==> OpenTo(c.p, c.access, pte))
  }

  // Steps 2 to 6 at a given level, with the page-table entry at `at`. `g` says
  // whether an entry on the way here was global.
  function WalkFrom(table: PageTable, vaddr: nat, c: Check, at: nat, level: nat, g: bool): Outcome
    decreases level
  {
    var pte := table(at);
    if !pte.v || (!pte.r && pte.w) then Fault
    else if pte.r || pte.x then
      if !Passes(c, pte) || pte.ppn % Pages(level) != 0 then Fault else Leaf(pte.(g := g || pte.g), level)
    else if level == 0 then Fault
    else WalkFrom(table, vaddr, c, EntryAddress(pte.ppn, vaddr, level - 1), level - 1, g || pte.g)
  }

  function Walk(table: PageTable, root: nat, vaddr: nat, c: Check): Outcome {
    WalkFrom(table, vaddr, c, EntryAddress(root, vaddr, 2), 2, false)
  }

  // Step 8: the page's number above the level, the virtual address below it.
  function PhysicalAddress(pte: Pte, level: nat, vaddr: nat): nat {
    (RoundDown(pte.ppn, Pages(level)) + (vaddr / 4096) % Pages(level)) * 4096 + vaddr % 4096
  }

  datatype Translation = PageFault | Address(paddr: nat)

  function Translate(table: PageTable, root: nat, vaddr: nat, access: Access, p: Privilege): Translation {
    match Walk(table, root, vaddr, InFull(access, p))
    case Fault => PageFault
    case Leaf(pte, level) => Address(PhysicalAddress(pte, level, vaddr))
  }

  // ---------- The MMU ----------

  // What the walker writes into a TLB.
  datatype TlbEntry = TlbEntry(vpn: nat, is2M: bool, is1G: bool, asid: nat, content: Pte)

  function EntryFor(vaddr: nat, asid: nat, pte: Pte, level: nat): TlbEntry {
    TlbEntry((vaddr / 4096) % 0x800_0000, level == 1, level == 2, asid, pte)
  }

  // x with bits lo and above, below hi, taken from y (both powers of two).
  function TakeBits(x: nat, y: nat, lo: nat, hi: nat): nat
    requires lo > 0 && hi > 0
  {
    RoundDown(x, hi) + RoundDown(y % hi, lo) + x % lo
  }

  // Page number and page offset, with the offset bits of large pages replaced.
  function ComposedAddress(e: TlbEntry, vaddr: nat): nat {
    var page := e.content.ppn * 4096 + vaddr % 4096;
    var mega := if e.is2M then TakeBits(page, vaddr, 0x1000, 0x20_0000) else page;
    if e.is1G then TakeBits(mega, vaddr, 0x1000, 0x4000_0000) else mega
  }

  // The instruction and data interfaces on a TLB hit.
  function HitResult(e: TlbEntry, vaddr: nat, access: Access, p: Privilege): Translation {
    var accessError := match p
      case User => !e.content.u
      case Supervisor(sum) => e.content.u && (access.Fetch? || !sum);
    if accessError || (access.Store? && (!e.content.w || !e.content.d)) then PageFault
    else Address(ComposedAddress(e, vaddr))
  }

  lemma LargePageAddress(pte: Pte, level: nat, vaddr: nat, asid: nat)
    requires level <= 2
    ensures ComposedAddress(EntryFor(vaddr, asid, pte, level), vaddr) == PhysicalAddress(pte, level, vaddr)
  {
    var page := pte.ppn * 4096 + vaddr % 4096;
    assert Pages(1) == 512 && Pages(2) == 262144;
    if level == 1 {
      FieldsOf(page, vaddr, pte.ppn, 512);
    } else if level == 2 {
      FieldsOf(page, vaddr, pte.ppn, 262144);
    }
  }

  lemma FieldsOf(page: nat, vaddr: nat, ppn: nat, n: nat)
    requires n > 0
    requires page == ppn * 4096 + vaddr % 4096
    ensures n * 4096 > 0
    ensures TakeBits(page, vaddr, 4096, n * 4096) == (RoundDown(ppn, n) + (vaddr / 4096) % n) * 4096 + vaddr % 4096
  {
    var v, l := vaddr / 4096, vaddr % 4096;
    assert vaddr == v * 4096 + l;
    LowFields(ppn, l, n);
    LowFields(v, l, n);
    DivModUnique((v % n) * 4096 + l, 4096, v % n, l);
    DivModUnique(page, 4096, ppn, l);
  }

  lemma LowFields(h: nat, l: nat, n: nat)
    requires n > 0 && l < 4096
    ensures (h * 4096 + l) % (n * 4096) == (h % n) * 4096 + l
  {
    var q, r := h / n, h % n;
    assert q * (n * 4096) == (q * n) * 4096;
    DivModUnique(h * 4096 + l, n * 4096, q, r * 4096 + l);
  }

  // Leaving the user-page check to the TLB lookup changes nothing.
  lemma {:induction false} UserCheckCanWait(table: PageTable, vaddr: nat, access: Access, p: Privilege,
                                            at: nat, level: nat, g: bool)
    ensures WalkFrom(table, vaddr, InFull(access, p), at, level, g)
         == match WalkFrom(table, vaddr, WithoutUserBit(access), at, level, g)
            case Fault => Fault
            case Leaf(pte, l) => if OpenTo(p, access, pte) then Leaf(pte, l) else Fault
    decreases level
  {
    var pte := table(at);
    if level == 0 {
    } else {
      UserCheckCanWait(table, vaddr, access, p, EntryAddress(pte.ppn, vaddr, level - 1), level - 1, g || pte.g);
    }
  }

  lemma {:induction false} LeafIsAllowed(table: PageTable, vaddr: nat, c: Check, at: nat, level: nat, g: bool)
    ensures var o := WalkFrom(table, vaddr, c, at, level, g);
      o.Leaf? ==> Passes(c, o.pte) && o.level <= level && o.pte.v
    decreases level
  {
    var pte := table(at);
    if level == 0 {
    } else {
      LeafIsAllowed(table, vaddr, c, EntryAddress(pte.ppn, vaddr, level - 1), level - 1, g || pte.g);
    }
  }

  // A walk followed by a hit on the entry it wrote translates as specified:
  // same faults, same address.
  lemma WalkThenHit(table: PageTable, root: nat, vaddr: nat, asid: nat, access: Access, p: Privilege)
    ensures Translate(table, root, vaddr, access, p)
         == match Walk(table, root, vaddr, WithoutUserBit(access))
            case Fault => PageFault
            case Leaf(pte, level) => HitResult(EntryFor(vaddr, asid, pte, level), vaddr, access, p)
  {
    var at := EntryAddress(root, vaddr, 2);
    UserCheckCanWait(table, vaddr, access, p, at, 2, false);
    LeafIsAllowed(table, vaddr, WithoutUserBit(access), at, 2, false);
    var o := Walk(table, root, vaddr, WithoutUserBit(access));
    if o.Leaf? {
      LargePageAddress(o.pte, o.level, vaddr, asid);
    }
  }

  // ---------- Where entries lie ----------

  // The nine-bit field of a virtual address that each level uses.
  function Field(vaddr: nat, level: nat): nat {
    if level == 2 then (vaddr / 0x4000_0000) % 512
    else if level == 1 then (vaddr / 0x20_0000) % 512
    else (vaddr / 0x1000) % 512
  }

  // An entry's address is aligned to eight bytes, lies in the page of its table,
  // and the entry's number in the table is the level's field.
  lemma EntryIsInItsTable(ppn: nat, vaddr: nat, level: nat)
    requires level <= 2
    ensures var a := EntryAddress(ppn, vaddr, level);
      a % 8 == 0 && a / 4096 == ppn && (a % 4096) / 8 == Field(vaddr, level)
  {
    assert Pages(1) == 512 && Pages(2) == 262144;
    FieldDividesTwice(vaddr);
    PlaceInPage(ppn, Field(vaddr, level));
  }

  lemma FieldDividesTwice(vaddr: nat)
    ensures (vaddr / 4096) / 512 == vaddr / 0x20_0000 && (vaddr / 4096) / 262144 == vaddr / 0x4000_0000
  {
  }

  lemma PlaceInPage(ppn: nat, number: nat)
    requires number < 512
    ensures var a := ppn * 4096 + number * 8; a % 8 == 0 && a / 4096 == ppn && (a % 4096) / 8 == number
  {
  }

  // Two walks look at the same entry only with the same table and the same field.
  lemma EntriesMeet(ppn: nat, vaddr: nat, level: nat, ppn': nat, vaddr': nat, level': nat)
    requires level <= 2 && level' <= 2
    ensures EntryAddress(ppn, vaddr, level) == EntryAddress(ppn', vaddr', level') <==>
      ppn == ppn' && Field(vaddr, level) == Field(vaddr', level')
  {
    EntryIsInItsTable(ppn, vaddr, level);
    EntryIsInItsTable(ppn', vaddr', level');
    EntryByNumber(ppn, vaddr, level);
    EntryByNumber(ppn', vaddr', level');
  }

  lemma EntryByNumber(ppn: nat, vaddr: nat, level: nat)
    requires level <= 2
    ensures EntryAddress(ppn, vaddr, level) == ppn * 4096 + Field(vaddr, level) * 8
  {
    EntryIsInItsTable(ppn, vaddr, level);
  }

  // The digits of an address: what is above 39 bits, the three fields, the offset.
  lemma Digits(vaddr: nat) returns (top: nat, f2: nat, f1: nat, f0: nat, offset: nat)
    ensures f2 < 512 && f1 < 512 && f0 < 512 && offset < 0x1000
    ensures vaddr == top * 0x80_0000_0000 + f2 * 0x4000_0000 + f1 * 0x20_0000 + f0 * 0x1000 + offset
    ensures offset == vaddr % 0x1000 && f0 == Field(vaddr, 0) && f1 == Field(vaddr, 1) && f2 == Field(vaddr, 2)
  {
    var v0 := vaddr / 0x1000;
    var v1 := v0 / 512;
    var v2 := v1 / 512;
    top, f2, f1, f0, offset := v2 / 512, v2 % 512, v1 % 512, v0 % 512, vaddr % 0x1000;
    FieldDividesTwice(vaddr);
    assert v0 == v1 * 512 + f0 && v1 == v2 * 512 + f1 && v2 == top * 512 + f2;
  }

  // The three fields and the page offset make up the 39 bits of the address.
  lemma FieldsMakeTheAddress(vaddr: nat)
    ensures Field(vaddr, 2) * 0x4000_0000 + Field(vaddr, 1) * 0x20_0000 + Field(vaddr, 0) * 0x1000 + vaddr % 0x1000
         == vaddr % 0x80_0000_0000
  {
    var top, f2, f1, f0, offset := Digits(vaddr);
    DivModUnique(vaddr, 0x80_0000_0000, top, f2 * 0x4000_0000 + f1 * 0x20_0000 + f0 * 0x1000 + offset);
  }

  // ---------- The same without recursion ----------

  // Section 4.4 written out for the three page sizes, with its numbers.

  predicate IsPointer(e: Pte) {
    e.v && !e.r && !e.w && !e.x
  }

  // A leaf that lets the access through: valid, not a write-only page, marked
  // accessed, and dirty for a store.
  predicate LetsThrough(e: Pte, access: Access, p: Privilege) {
    && e.v && (e.w ==> e.r) && (e.r || e.x) && e.a
    && (access.Fetch? ==> e.x)
    && (access.Load? ==> e.r || (e.x && access.mxr))
    && (access.Store? ==> e.w && e.d)
    && (p.User? ==> e.u)
    && (p.Supervisor? && e.u ==> p.sum && !access.Fetch?)
  }

  function Sv39(table: PageTable, root: nat, vaddr: nat, access: Access, p: Privilege): Translation {
    var e2 := table(root * 4096 + 8 * ((vaddr / 0x4000_0000) % 512));
    var e1 := table(e2.ppn * 4096 + 8 * ((vaddr / 0x20_0000) % 512));
    var e0 := table(e1.ppn * 4096 + 8 * ((vaddr / 0x1000) % 512));
    if LetsThrough(e2, access, p) && e2.ppn % 0x4_0000 == 0 then
      Address(e2.ppn / 0x4_0000 * 0x4000_0000 + vaddr % 0x4000_0000)
    else if IsPointer(e2) && LetsThrough(e1, access, p) && e1.ppn % 0x200 == 0 then
      Address(e1.ppn / 0x200 * 0x20_0000 + vaddr % 0x20_0000)
    else if IsPointer(e2) && IsPointer(e1) && LetsThrough(e0, access, p) then
      Address(e0.ppn * 0x1000 + vaddr % 0x1000)
    else PageFault
  }

  // One step of the recursive walk: an entry ends it or leads to the next table.
  lemma StepOfWalk(table: PageTable, vaddr: nat, access: Access, p: Privilege, at: nat, level: nat, g: bool)
    ensures var e, o := table(at), WalkFrom(table, vaddr, InFull(access, p), at, level, g);
      if LetsThrough(e, access, p) then
        if e.ppn % Pages(level) == 0 then o.Leaf? && o.level == level && o.pte.ppn == e.ppn else o == Fault
      else if IsPointer(e) && level > 0 then
        o == WalkFrom(table, vaddr, InFull(access, p), EntryAddress(e.ppn, vaddr, level - 1), level - 1, g || e.g)
      else o == Fault
  {
  }

  // The recursive walk is that, for every table, access and level of privilege.
  lemma TranslateIsSv39(table: PageTable, root: nat, vaddr: nat, access: Access, p: Privilege)
    ensures Translate(table, root, vaddr, access, p) == Sv39(table, root, vaddr, access, p)
  {
    var a2 := EntryAddress(root, vaddr, 2);
    var a1 := EntryAddress(table(a2).ppn, vaddr, 1);
    var a0 := EntryAddress(table(a1).ppn, vaddr, 0);
    EntryByNumber(root, vaddr, 2);
    EntryByNumber(table(a2).ppn, vaddr, 1);
    EntryByNumber(table(a1).ppn, vaddr, 0);
    StepOfWalk(table, vaddr, access, p, a2, 2, false);
    StepOfWalk(table, vaddr, access, p, a1, 1, table(a2).g);
    StepOfWalk(table, vaddr, access, p, a0, 0, table(a2).g || table(a1).g);
    var o := Walk(table, root, vaddr, InFull(access, p));
    if o.Leaf? {
      AddressInPage(o.pte, o.level, vaddr);
    }
    PageCounts();
  }

  lemma PageCounts()
    ensures Pages(0) == 1 && Pages(1) == 0x200 && Pages(2) == 0x4_0000
  {
    assert Pages(1) == 512 && Pages(2) == 262144;
  }

  lemma AddressInPage(pte: Pte, level: nat, vaddr: nat)
    requires level <= 2
    ensures PhysicalAddress(pte, level, vaddr)
         == if level == 0 then pte.ppn * 0x1000 + vaddr % 0x1000
            else if level == 1 then pte.ppn / 0x200 * 0x20_0000 + vaddr % 0x20_0000
            else pte.ppn / 0x4_0000 * 0x4000_0000 + vaddr % 0x4000_0000
  {
    PageCounts();
    RoundedDown(pte.ppn, 0x200);
    RoundedDown(pte.ppn, 0x4_0000);
    LowFields(vaddr / 4096, vaddr % 4096, 0x200);
    LowFields(vaddr / 4096, vaddr % 4096, 0x4_0000);
    RoundedDown(pte.ppn, 1);
  }

  lemma RoundedDown(x: nat, n: nat)
    requires n > 0
    ensures RoundDown(x, n) == x / n * n
  {
  }

  // ---------- A TLB entry serves its page ----------

  // The address is in the page of the given size that the entry was made for:
  // the page numbers agree from the entry's level up.
  predicate InPageOf(e: TlbEntry, vaddr: nat) {
    && Field(vaddr, 2) == (e.vpn / 262144) % 512
    && (!e.is1G ==> Field(vaddr, 1) == (e.vpn / 512) % 512)
    && (!e.is1G && !e.is2M ==> Field(vaddr, 0) == e.vpn % 512)
  }

  lemma EntryFields(vaddr: nat, asid: nat, pte: Pte, level: nat)
    requires level <= 2
    ensures var e := EntryFor(vaddr, asid, pte, level);
      && e.vpn == (vaddr % 0x80_0000_0000) / 4096 && e.asid == asid && e.content == pte
      && e.vpn % 512 == Field(vaddr, 0) && (e.vpn / 512) % 512 == Field(vaddr, 1)
      && (e.vpn / 262144) % 512 == Field(vaddr, 2)
  {
    var top, f2, f1, f0, offset := Digits(vaddr);
    var vpn := f2 * 262144 + f1 * 512 + f0;
    DivModUnique(vaddr, 4096, top * 0x800_0000 + vpn, offset);
    DivModUnique(top * 0x800_0000 + vpn, 0x800_0000, top, vpn);
    FieldsMakeTheAddress(vaddr);
    DivModUnique(vaddr % 0x80_0000_0000, 4096, vpn, offset);
    FieldsOfNumber(f2, f1, f0);
  }

  lemma FieldsOfNumber(f2: nat, f1: nat, f0: nat)
    requires f2 < 512 && f1 < 512 && f0 < 512
    ensures var n := f2 * 262144 + f1 * 512 + f0;
      n % 512 == f0 && (n / 512) % 512 == f1 && (n / 262144) % 512 == f2
  {
  }

  lemma {:induction false} SameFieldsSameWalk(table: PageTable, vaddr: nat, vaddr': nat, c: Check, at: nat, level: nat,
      g: bool)
    requires level <= 2
    requires var o := WalkFrom(table, vaddr, c, at, level, g);
      o.Leaf? && forall l: nat :: o.level <= l < level ==> Field(vaddr, l) == Field(vaddr', l)
    ensures WalkFrom(table, vaddr', c, at, level, g) == WalkFrom(table, vaddr, c, at, level, g)
    decreases level
  {
    var pte := table(at);
    if level > 0 && !(pte.r || pte.x) {
      LeafIsAllowed(table, vaddr, c, EntryAddress(pte.ppn, vaddr, level - 1), level - 1, g || pte.g);
      EntryByNumber(pte.ppn, vaddr, level - 1);
      EntryByNumber(pte.ppn, vaddr', level - 1);
      SameFieldsSameWalk(table, vaddr, vaddr', c, EntryAddress(pte.ppn, vaddr, level - 1), level - 1, g || pte.g);
    }
  }

  // The entry a walk leaves in the TLB translates every address of its page, not
  // only the one that missed, as the page table does.
  lemma EntryServesItsPage(table: PageTable, root: nat, vaddr: nat, vaddr': nat, asid: nat, access: Access,
      p: Privilege)
    requires var o := Walk(table, root, vaddr, WithoutUserBit(access));
      o.Leaf? && InPageOf(EntryFor(vaddr, asid, o.pte, o.level), vaddr')
    ensures var o := Walk(table, root, vaddr, WithoutUserBit(access));
      Translate(table, root, vaddr', access, p) == HitResult(EntryFor(vaddr, asid, o.pte, o.level), vaddr', access, p)
  {
    var c := WithoutUserBit(access);
    var o := Walk(table, root, vaddr, c);
    LeafIsAllowed(table, vaddr, c, EntryAddress(root, vaddr, 2), 2, false);
    EntryFields(vaddr, asid, o.pte, o.level);
    EntryByNumber(root, vaddr, 2);
    EntryByNumber(root, vaddr', 2);
    SameFieldsSameWalk(table, vaddr, vaddr', c, EntryAddress(root, vaddr, 2), 2, false);
    WalkThenHit(table, root, vaddr', asid, access, p);
  }
}
