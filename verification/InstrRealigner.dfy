/**
  The instruction realigner of src/instr_realigner.sv: it turns 32-bit fetch
  words into 16- and 32-bit instructions, keeping half an instruction in a
  register when one straddles two words.
*/
module InstrRealigner {
  import Rings

  // A fetch word as two halfwords. The address of the first word of a fetch may
  // point to its upper half.
  datatype Fetch = Fetch(address: nat, lo: nat, hi: nat)

  datatype Instr = Instr(address: nat, bits: nat)

  predicate Compressed(half: nat) {
    half % 4 != 3
  }

  // ---------- The reference parse ----------

  // A stream of halfwords and the address of its first one.
  datatype Stream = Stream(halves: seq<nat>, address: nat)

  function Parse(s: Stream): seq<Instr>
    decreases |s.halves|
  {
    if s.halves == [] then []
    else if Compressed(s.halves[0]) then
      [Instr(s.address, s.halves[0])] + Parse(Stream(s.halves[1..], s.address + 2))
    else if |s.halves| == 1 then []
    else
      [Instr(s.address, s.halves[0] + 0x1_0000 * s.halves[1])] + Parse(Stream(s.halves[2..], s.address + 4))
  }

  // Every instruction of the parse covers its own halfwords: addresses advance
  // by the lengths of the instructions before.
  lemma {:induction false} ParseAddressesAdvance(s: Stream, k: nat)
    requires k < |Parse(s)| - 1
    requires forall j :: 0 <= j < |s.halves| ==> s.halves[j] < 0x1_0000
    ensures var p := Parse(s); p[k + 1].address == p[k].address + if Compressed(p[k].bits) then 2 else 4
    decreases |s.halves|
  {
    var n := if Compressed(s.halves[0]) then 1 else 2;
    var rest := Stream(s.halves[n..], s.address + 2 * n);
    assert Parse(s)[1..] == Parse(rest);
    if k > 0 {
      ParseAddressesAdvance(rest, k - 1);
      assert Parse(s)[k] == Parse(rest)[k - 1] && Parse(s)[k + 1] == Parse(rest)[k];
    } else {
      assert Parse(s)[1] == Parse(rest)[0];
    }
  }

  // How many halfwords an instruction takes, by the low two bits of its own word.
  function Length(bits: nat): nat {
    if bits % 4 == 3 then 2 else 1
  }

  // The k-th instruction of the parse stands at place j of the stream: its bits
  // are the halfwords there, one of them or two, by its own low bits; the next
  // one follows; and behind the last there is at most the first half of another.
  ghost predicate StandsAt(s: Stream, p: seq<Instr>, k: nat, j: nat)
    requires k < |p|
  {
    var n := Length(p[k].bits);
    && j + n <= |s.halves| && p[k].address == s.address + 2 * j
    && p[k].bits == (if n == 2 then s.halves[j] + 0x1_0000 * s.halves[j + 1] else s.halves[j])
    && (if k + 1 < |p| then p[k + 1].address == p[k].address + 2 * n
        else j + n == |s.halves| || (j + n == |s.halves| - 1 && s.halves[j + n] % 4 == 3))
  }

  lemma ParseHead(s: Stream) returns (n: nat, rest: Stream)
    requires Parse(s) != []
    ensures 1 <= n <= |s.halves| && rest == Stream(s.halves[n..], s.address + 2 * n)
    ensures Parse(s) == [Parse(s)[0]] + Parse(rest) && Parse(s)[0].address == s.address
    ensures n == Length(Parse(s)[0].bits)
    ensures Parse(s)[0].bits == if n == 2 then s.halves[0] + 0x1_0000 * s.halves[1] else s.halves[0]
  {
    n := if s.halves[0] % 4 == 3 then 2 else 1;
    rest := Stream(s.halves[n..], s.address + 2 * n);
    LowBits(s.halves[0], if |s.halves| > 1 then s.halves[1] else 0);
  }

  lemma LowBits(lo: nat, hi: nat)
    ensures (lo + 0x1_0000 * hi) % 4 == lo % 4
  {
  }

  lemma ParseEnds(s: Stream)
    requires Parse(s) == []
    ensures s.halves == [] || (|s.halves| == 1 && s.halves[0] % 4 == 3)
  {
  }

  lemma {:induction false} ParseTakesItsHalves(s: Stream, k: nat) returns (j: nat)
    requires k < |Parse(s)|
    ensures StandsAt(s, Parse(s), k, j) && (k == 0 ==> j == 0)
    decreases k
  {
    var n, rest := ParseHead(s);
    if k == 0 {
      j := 0;
      if Parse(rest) == [] {
        ParseEnds(rest);
      } else {
        var m, more := ParseHead(rest);
      }
    } else {
      var j' := ParseTakesItsHalves(rest, k - 1);
      j := j' + n;
      FurtherOn(s, rest, n, Parse(s), Parse(rest), k, j');
    }
  }

  lemma FurtherOn(s: Stream, rest: Stream, n: nat, p: seq<Instr>, q: seq<Instr>, k: nat, j: nat)
    requires n <= |s.halves| && rest == Stream(s.halves[n..], s.address + 2 * n)
    requires p != [] && p == [p[0]] + q && 0 < k < |p| && StandsAt(rest, q, k - 1, j)
    ensures StandsAt(s, p, k, j + n)
  {
    assert p[k] == q[k - 1] && (k + 1 < |p| ==> p[k + 1] == q[k]);
  }

  // ---------- The stream behind the registers ----------

  function Halves(ws: seq<Fetch>): seq<nat> {
    if ws == [] then [] else [ws[0].lo, ws[0].hi] + Halves(ws[1..])
  }

  // The word an address lies in.
  function Base(address: nat): nat {
    address - address % 4
  }

  predicate Consecutive(ws: seq<Fetch>) {
    && (forall k :: 0 <= k < |ws| ==> ws[k].address % 2 == 0)
    && (forall k :: 0 < k < |ws| ==> ws[k].address == Base(ws[k - 1].address) + 4)
  }

  datatype Regs = Regs(unaligned: bool, half: nat, halfAddress: nat, compressed: bool)

  // The registers fit the words still in the fetch queue.
  predicate Fits(r: Regs, ws: seq<Fetch>) {
    && Consecutive(ws)
    && !(r.unaligned && r.compressed)
    && (r.compressed ==> ws != [] && ws[0].address % 4 == 0 && Compressed(ws[0].hi))
    && (r.unaligned ==> !Compressed(r.half) && r.halfAddress % 4 == 2)
    && (r.unaligned && ws != [] ==> ws[0].address == r.halfAddress + 2)
  }

  // What has not been emitted yet: the rest of the queue, with the saved half
  // in front or the served half dropped.
  function Remaining(r: Regs, ws: seq<Fetch>): Stream {
    if r.unaligned then Stream([r.half] + Halves(ws), r.halfAddress)
    else if ws == [] then Stream([], 0)
    else if r.compressed || ws[0].address % 4 == 2 then
      Stream([ws[0].hi] + Halves(ws[1..]), Base(ws[0].address) + 2)
    else Stream(Halves(ws), ws[0].address)
  }

  lemma ServeHalf(h: nat, rest: seq<nat>, a: nat)
    requires Compressed(h)
    ensures Parse(Stream([h] + rest, a)) == [Instr(a, h)] + Parse(Stream(rest, a + 2))
  {
    assert ([h] + rest)[1..] == rest;
  }

  lemma ServePair(h: nat, h': nat, rest: seq<nat>, a: nat)
    requires !Compressed(h)
    ensures Parse(Stream([h] + ([h'] + rest), a)) == [Instr(a, h + 0x1_0000 * h')] + Parse(Stream(rest, a + 4))
  {
    assert ([h] + ([h'] + rest))[2..] == rest;
  }

  // The queue behind its head starts a new stream at the next word.
  lemma BehindHead(ws: seq<Fetch>)
    requires ws != [] && Consecutive(ws)
    ensures Halves(ws) == [ws[0].lo] + ([ws[0].hi] + Halves(ws[1..]))
    ensures Consecutive(ws[1..]) && (ws[1..] != [] ==> ws[1..][0].address == Base(ws[0].address) + 4)
  {
  }

  lemma FreshStream(r: Regs, ws: seq<Fetch>, address: nat)
    requires !r.unaligned && !r.compressed && address % 4 == 0 && (ws != [] ==> ws[0].address == address)
    ensures Parse(Remaining(r, ws)) == Parse(Stream(Halves(ws), address))
  {
  }

  // What the registers become when the cycle is acknowledged, and what goes out.
  datatype Served = Served(next: Regs, out: seq<Instr>, pop: bool)

  function Serve(r: Regs, f: Fetch): Served {
    var upper := Base(f.address) + 2;
    var straddles := Regs(true, f.hi, upper, false);
    if r.compressed then
      Served(r.(compressed := false), [Instr(upper, f.hi)], true)
    else if f.address % 4 != 0 then
      if Compressed(f.hi) then Served(r.(unaligned := false), [Instr(f.address, f.hi)], true)
      else Served(straddles, [], true)
    else if !r.unaligned && !Compressed(f.lo) then
      Served(r, [Instr(f.address, f.lo + 0x1_0000 * f.hi)], true)
    else
      var first := if r.unaligned then Instr(r.halfAddress, r.half + 0x1_0000 * f.lo) else Instr(f.address, f.lo);
      if Compressed(f.hi) then Served(r.(unaligned := false, compressed := true), [first], false)
      else Served(straddles, [first], true)
  }

  ghost predicate ServedFaithfully(r: Regs, ws: seq<Fetch>)
    requires ws != []
  {
    var s := Serve(r, ws[0]);
    var left := if s.pop then ws[1..] else ws;
    Parse(Remaining(r, ws)) == s.out + Parse(Remaining(s.next, left))
  }

  lemma ServeFits(r: Regs, ws: seq<Fetch>)
    requires ws != [] && Fits(r, ws)
    ensures var s := Serve(r, ws[0]);
      Fits(s.next, if s.pop then ws[1..] else ws)
  {
    BehindHead(ws);
  }

  lemma ServeIsFaithful(r: Regs, ws: seq<Fetch>)
    requires ws != [] && Fits(r, ws)
    ensures ServedFaithfully(r, ws)
  {
    if r.compressed || ws[0].address % 4 != 0 {
      ServeUpperHalf(r, ws);
    } else if r.unaligned {
      ServeStraddling(r, ws);
    } else {
      ServeWord(r, ws);
    }
  }

  lemma UpperHalfRemains(r: Regs, ws: seq<Fetch>)
    requires ws != [] && Fits(r, ws) && (r.compressed || ws[0].address % 4 != 0)
    ensures !r.unaligned && Remaining(r, ws) == Stream([ws[0].hi] + Halves(ws[1..]), Base(ws[0].address) + 2)
    ensures !r.compressed ==> ws[0].address == Base(ws[0].address) + 2
  {
  }

  lemma ServeUpperHalf(r: Regs, ws: seq<Fetch>)
    requires ws != [] && Fits(r, ws) && (r.compressed || ws[0].address % 4 != 0)
    ensures ServedFaithfully(r, ws)
  {
    var f, rest := ws[0], Halves(ws[1..]);
    var upper := Base(f.address) + 2;
    UpperHalfRemains(r, ws);
    BehindHead(ws);
    if Compressed(f.hi) {
      assert Serve(r, f) == Served(r.(compressed := false), [Instr(upper, f.hi)], true);
      ServeHalf(f.hi, rest, upper);
      FreshStream(r.(compressed := false), ws[1..], upper + 2);
    } else {
      assert Remaining(Serve(r, f).next, ws[1..]) == Remaining(r, ws);
    }
  }

  lemma ServeStraddling(r: Regs, ws: seq<Fetch>)
    requires ws != [] && Fits(r, ws) && r.unaligned
    ensures ServedFaithfully(r, ws)
  {
    var f, rest := ws[0], Halves(ws[1..]);
    BehindHead(ws);
    assert Remaining(r, ws) == Stream([r.half] + ([f.lo] + ([f.hi] + rest)), r.halfAddress);
    ServePair(r.half, f.lo, [f.hi] + rest, r.halfAddress);
    var s := Serve(r, f);
    assert Remaining(s.next, if s.pop then ws[1..] else ws) == Stream([f.hi] + rest, r.halfAddress + 4);
  }

  lemma ServeWord(r: Regs, ws: seq<Fetch>)
    requires ws != [] && Fits(r, ws) && !r.unaligned && !r.compressed && ws[0].address % 4 == 0
    ensures ServedFaithfully(r, ws)
  {
    if Compressed(ws[0].lo) {
      ServeLowerHalf(r, ws);
    } else {
      ServeWholeWord(r, ws);
    }
  }

  lemma WordRemains(r: Regs, ws: seq<Fetch>)
    requires ws != [] && Fits(r, ws) && !r.unaligned && !r.compressed && ws[0].address % 4 == 0
    ensures Remaining(r, ws) == Stream([ws[0].lo] + ([ws[0].hi] + Halves(ws[1..])), ws[0].address)
    ensures Base(ws[0].address) == ws[0].address
    ensures ws[1..] != [] ==> ws[1..][0].address == ws[0].address + 4
  {
    BehindHead(ws);
  }

  lemma ServeWholeWord(r: Regs, ws: seq<Fetch>)
    requires ws != [] && Fits(r, ws) && !r.unaligned && !r.compressed && ws[0].address % 4 == 0
    requires !Compressed(ws[0].lo)
    ensures ServedFaithfully(r, ws)
  {
    var f, rest := ws[0], Halves(ws[1..]);
    WordRemains(r, ws);
    ServePair(f.lo, f.hi, rest, f.address);
    FreshStream(r, ws[1..], f.address + 4);
  }

  lemma ServeLowerHalf(r: Regs, ws: seq<Fetch>)
    requires ws != [] && Fits(r, ws) && !r.unaligned && !r.compressed && ws[0].address % 4 == 0
    requires Compressed(ws[0].lo)
    ensures ServedFaithfully(r, ws)
  {
    var f, rest := ws[0], Halves(ws[1..]);
    WordRemains(r, ws);
    ServeHalf(f.lo, [f.hi] + rest, f.address);
    var s := Serve(r, f);
    assert Remaining(s.next, if s.pop then ws[1..] else ws) == Stream([f.hi] + rest, f.address + 2);
  }

  // ---------- Runs ----------

  // The registers and the words still to come, and what a cycle brings: whether
  // the next word is there and whether the decoder takes what is offered.
  datatype State = State(r: Regs, ws: seq<Fetch>)

  datatype Input = Input(valid: bool, ack: bool)

  predicate IsServed(s: State, i: Input) {
    i.valid && s.ws != [] && (i.ack || Serve(s.r, s.ws[0]).out == [])
  }

  function Next(s: State, i: Input): State {
    if !IsServed(s, i) then s
    else
      var v := Serve(s.r, s.ws[0]);
      State(v.next, if v.pop then s.ws[1..] else s.ws)
  }

  function Out(s: State, i: Input): seq<Instr> {
    if IsServed(s, i) then Serve(s.r, s.ws[0]).out else []
  }

  function End(s: State, ins: seq<Input>): State
    decreases |ins|
  {
    if ins == [] then s else End(Next(s, ins[0]), ins[1..])
  }

  function Emitted(s: State, ins: seq<Input>): seq<Instr>
    decreases |ins|
  {
    if ins == [] then [] else Out(s, ins[0]) + Emitted(Next(s, ins[0]), ins[1..])
  }

  // Whenever words arrive and whenever the decoder stalls, what comes out over a
  // run followed by the parse of what is left is the parse of the whole stream.
  lemma {:induction false} RunEmitsTheParse(s: State, ins: seq<Input>)
    requires Fits(s.r, s.ws)
    ensures var e := End(s, ins);
      Fits(e.r, e.ws) && Parse(Remaining(s.r, s.ws)) == Emitted(s, ins) + Parse(Remaining(e.r, e.ws))
    decreases |ins|
  {
    if ins == [] {
      assert Parse(Remaining(s.r, s.ws)) == [] + Parse(Remaining(s.r, s.ws));
    } else {
      var t, rest := Next(s, ins[0]), ins[1..];
      CycleIsFaithful(s, ins[0]);
      RunEmitsTheParse(t, rest);
      Rings.Concatenation(Out(s, ins[0]), Emitted(t, rest), Parse(Remaining(End(t, rest).r, End(t, rest).ws)));
    }
  }

  lemma CycleIsFaithful(s: State, i: Input)
    requires Fits(s.r, s.ws)
    ensures var t := Next(s, i);
      Fits(t.r, t.ws) && Parse(Remaining(s.r, s.ws)) == Out(s, i) + Parse(Remaining(t.r, t.ws))
  {
    if IsServed(s, i) {
      ServeFits(s.r, s.ws);
      ServeIsFaithful(s.r, s.ws);
    }
  }

  // Once the words are used up, it is the whole parse.
  lemma WholeParse(s: State, ins: seq<Input>)
    requires Fits(s.r, s.ws) && Takes(ins) >= 2 * |s.ws| - if s.r.compressed then 1 else 0
    ensures Emitted(s, ins) == Parse(Remaining(s.r, s.ws))
  {
    WordsAreUsedUp(s, ins);
    RunEmitsTheParse(s, ins);
    var e := End(s, ins);
    assert Parse(Remaining(e.r, e.ws)) == [];
  }

  function Takes(ins: seq<Input>): nat {
    if ins == [] then 0 else (if ins[0].valid && ins[0].ack then 1 else 0) + Takes(ins[1..])
  }

  // Two acknowledged cycles a word use the words up, so nothing is held back.
  lemma {:induction false} WordsAreUsedUp(s: State, ins: seq<Input>)
    requires Fits(s.r, s.ws) && Takes(ins) >= 2 * |s.ws| - if s.r.compressed then 1 else 0
    ensures End(s, ins).ws == []
    decreases |ins|
  {
    if ins == [] {
    } else {
      if IsServed(s, ins[0]) {
        ServeFits(s.r, s.ws);
      }
      WordsAreUsedUp(Next(s, ins[0]), ins[1..]);
    }
  }

  class Realigner {
    var unaligned: bool
    var half: nat
    var halfAddress: nat
    var compressed: bool

    function Registers(): Regs
      reads this
    {
      Regs(unaligned, half, halfAddress, compressed)
    }

    constructor ()
      ensures Registers() == Regs(false, 0, 0, false)
    {
      unaligned, half, halfAddress, compressed := false, 0, 0, false;
    }

    // One clock cycle without branch prediction or page faults. `ws` are the
    // words to come; the first is on the inputs when `valid`. The instruction goes
    // out when it is valid and acknowledged; `pop` takes the word off the queue.
    // While a word's upper half is due, the word has to stay on the inputs: the
    // output is valid whether it does or not.
    method Step(valid: bool, f: Fetch, ack: bool, flush: bool, ghost ws: seq<Fetch>)
      returns (o: Instr, outValid: bool, pop: bool)
      requires Fits(Registers(), ws) && (valid ==> ws != [] && f == ws[0])
      modifies this
      ensures !flush && (old(compressed) ==> valid) ==>
        var before, i := State(old(Registers()), ws), Input(valid, ack);
        && State(Registers(), if pop && valid then ws[1..] else ws) == Next(before, i)
        && (if outValid && ack then [o] else []) == Out(before, i)
        && Fits(Registers(), Next(before, i).ws)
      ensures flush ==> !unaligned && !compressed
      ensures outValid ==> valid || old(compressed)
      ensures old(compressed) ==> outValid && o == Instr(Base(f.address) + 2, f.hi)
    {
      var u, h, ha, c := unaligned, half, halfAddress, compressed;
      o, outValid, pop := Instr(f.address, f.lo + 0x1_0000 * f.hi), valid, ack;
      var jump := false;
      if valid && !compressed {
        if f.address % 4 == 0 {
          if !unaligned {
            u := false;
            if f.lo % 4 != 3 {
              o := Instr(o.address, f.lo);
              if f.hi % 4 != 3 {
                c, pop := true, false;
              } else {
                h, ha, u := f.hi, Base(f.address) + 2, true;
              }
            }
          } else {
            o := Instr(halfAddress, half + 0x1_0000 * f.lo);
            if f.hi % 4 != 3 {
              c, pop, u := true, false, false;
            } else {
              h, ha, u := f.hi, Base(f.address) + 2, true;
            }
          }
        } else {
          u := false;
          if f.hi % 4 != 3 {
            o := Instr(o.address, f.hi);
          } else {
            h, u, ha := f.hi, true, Base(f.address) + 2;
            outValid, pop, jump := false, true, true;
          }
        }
      }
      if compressed {
        pop, c, outValid := ack, false, true;
        o := Instr(Base(f.address) + 2, f.hi);
      }
      if !ack && !jump {
        u, h, c, ha := unaligned, half, compressed, halfAddress;
      }
      if flush {
        u, c := false, false;
      }
      if valid && (ack || jump) && !flush {
        var s := Serve(Registers(), f);
        assert Regs(u, h, ha, c) == s.next && pop == s.pop && s.out == if outValid then [o] else [];
        ServeFits(Registers(), ws);
      }
      unaligned, half, halfAddress, compressed := u, h, ha, c;
    }
  }
}
