/**
  The cache's bus adapter of src/axi_adapter.sv: it writes and reads single
  words or whole cache lines over AXI. A line has `beats` words (a power of two
  in the core, at least two here).

  A write may find the address channel and the data channel ready in any order.
  The adapter sorts this out with five states; what it implements is the two
  independent handshakes of Write below.
*/
module AxiAdapter {
  import opened Bits

  datatype State =
    | Idle | WaitBValid | WaitAwReady | WaitLastWReady | WaitLastWReadyAwReady | WaitAwReadyBurst
    | WaitRValid | WaitRValidMultiple | CompleteRead

  datatype Input = Input(
    req: bool, single: bool, addr: nat, we: bool, wdata: seq<nat>, be: seq<nat>, id: nat,
    awReady: bool, wReady: bool, bValid: bool, bId: nat,
    arReady: bool, rValid: bool, rLast: bool, rData: nat, rId: nat)

  datatype WriteOutput = WriteOutput(
    awValid: bool, awLen: nat, wValid: bool, wData: nat, wStrb: nat, wLast: bool, grant: bool)

  datatype ReadOutput = ReadOutput(
    arValid: bool, arAddr: nat, arLen: nat, arWrap: bool, grant: bool, rReady: bool, bReady: bool, valid: bool, id: nat,
    criticalWord: nat, criticalWordValid: bool)

  // ---------- Writes ----------

  // What has been handed over of a write: the address, and how many words.
  datatype Write = Write(addressSent: bool, sent: nat)

  const NOT_STARTED := Write(false, 0)

  function Total(single: bool, beats: nat): nat {
    if single then 1 else beats
  }

  function WriteNext(w: Write, total: nat, awReady: bool, wReady: bool): Write {
    Write(w.addressSent || awReady, if w.sent < total && wReady then w.sent + 1 else w.sent)
  }

  predicate Complete(w: Write, total: nat) {
    w.addressSent && w.sent == total
  }

  // The address is offered until it is taken, then never again; words are
  // offered in order until the last, which alone is marked; the grant comes
  // with the handshake that completes the write.
  ghost predicate WriteOffers(w: Write, beats: nat, i: Input, o: WriteOutput) {
    var total := Total(i.single, beats);
    && o.awValid == !w.addressSent
    && (o.awValid ==> o.awLen == total - 1)
    && o.wValid == (w.sent < total)
    && (o.wValid ==> w.sent < |i.wdata| && w.sent < |i.be|
                     && o.wData == i.wdata[w.sent] && o.wStrb == i.be[w.sent] && o.wLast == (w.sent == total - 1))
    && o.grant == Complete(WriteNext(w, total, i.awReady, i.wReady), total)
  }

  datatype Ready = Ready(aw: bool, w: bool)

  function WriteAfter(w: Write, total: nat, rs: seq<Ready>): Write
    decreases |rs|
  {
    if rs == [] then w else WriteAfter(WriteNext(w, total, rs[0].aw, rs[0].w), total, rs[1..])
  }

  // Data words the bus takes over a run, by number.
  function Taken(w: Write, total: nat, rs: seq<Ready>): seq<nat>
    decreases |rs|
  {
    if rs == [] then []
    else TakenIn(w, total, rs[0]) + Taken(WriteNext(w, total, rs[0].aw, rs[0].w), total, rs[1..])
  }

  function TakenIn(w: Write, total: nat, r: Ready): seq<nat> {
    if w.sent < total && r.w then [w.sent] else []
  }

  function AddressHandshakes(w: Write, total: nat, rs: seq<Ready>): nat
    decreases |rs|
  {
    if rs == [] then 0
    else
      (if !w.addressSent && rs[0].aw then 1 else 0)
      + AddressHandshakes(WriteNext(w, total, rs[0].aw, rs[0].w), total, rs[1..])
  }

  function UpTo(from: nat, to: nat): seq<nat>
    requires from <= to
  {
    seq(to - from, k => from + k)
  }

  // However the two ready signals come, the words go out once each and in
  // order, and the address goes out once.
  lemma {:induction false} WriteInOrder(w: Write, total: nat, rs: seq<Ready>)
    requires w.sent <= total
    ensures var end := WriteAfter(w, total, rs);
      && w.sent <= end.sent <= total && Taken(w, total, rs) == UpTo(w.sent, end.sent)
      && AddressHandshakes(w, total, rs) == (if end.addressSent && !w.addressSent then 1 else 0)
      && (w.addressSent ==> end.addressSent)
    decreases |rs|
  {
    if rs == [] {
    } else {
      var next := WriteNext(w, total, rs[0].aw, rs[0].w);
      WriteInOrder(next, total, rs[1..]);
      var end := WriteAfter(w, total, rs);
      assert TakenIn(w, total, rs[0]) + UpTo(next.sent, end.sent) == UpTo(w.sent, end.sent);
    }
  }

  // A granted write has had exactly one address handshake and words
  // 0 .. total-1, and as long as it is not granted something is still offered.
  lemma GrantedWriteIsWhole(total: nat, rs: seq<Ready>)
    requires total > 0
    ensures var end := WriteAfter(NOT_STARTED, total, rs);
      if Complete(end, total) then
        AddressHandshakes(NOT_STARTED, total, rs) == 1 && Taken(NOT_STARTED, total, rs) == UpTo(0, total)
      else !end.addressSent || end.sent < total
  {
    WriteInOrder(NOT_STARTED, total, rs);
  }

  // ---------- Reads ----------

  // The line that an address lies in, and the word within the line.
  function LineBase(addr: nat, beats: nat): nat
    requires beats > 0
  {
    RoundDown(addr, 8 * beats)
  }

  function RequestedWord(addr: nat, beats: nat): (w: nat)
    requires beats > 0
    ensures w < beats
  {
    (addr / 8) % beats
  }

  // The word of the line that the k-th beat of a burst carries: AXI increments
  // the address from the line's base, or wraps it around from the requested
  // word.
  function WordOfBeat(wrap: bool, offset: nat, k: nat, beats: nat): nat
    requires beats > 0
  {
    if wrap then (offset + k) % beats else k % beats
  }

  // Received words sit at their places.
  ghost predicate Placed(line: seq<nat>, wrap: bool, offset: nat, received: seq<nat>) {
    && |line| > 0 && |received| <= |line|
    && forall k :: 0 <= k < |received| ==> line[WordOfBeat(wrap, offset, k, |line|)] == received[k]
  }

  lemma BeatsFillDistinctWords(wrap: bool, offset: nat, beats: nat, k: nat, k': nat)
    requires k < k' < beats
    ensures WordOfBeat(wrap, offset, k, beats) != WordOfBeat(wrap, offset, k', beats)
  {
    if wrap {
      RemaindersDiffer(offset + k, offset + k', beats);
    }
  }

  lemma PlaceNext(line: seq<nat>, wrap: bool, offset: nat, received: seq<nat>, data: nat)
    requires Placed(line, wrap, offset, received) && |received| < |line|
    ensures Placed(line[WordOfBeat(wrap, offset, |received|, |line|) := data], wrap, offset, received + [data])
  {
    forall k | 0 <= k < |received|
      ensures WordOfBeat(wrap, offset, k, |line|) != WordOfBeat(wrap, offset, |received|, |line|)
    {
      BeatsFillDistinctWords(wrap, offset, |line|, k, |received|);
    }
  }

  // If the bus delivers the burst's words, the line read is the line in memory.
  lemma LineReadIsMemory(line: seq<nat>, wrap: bool, offset: nat, received: seq<nat>, memory: seq<nat>)
    requires |memory| == |line| == |received| && Placed(line, wrap, offset, received)
    requires forall k :: 0 <= k < |received| ==> received[k] == memory[WordOfBeat(wrap, offset, k, |line|)]
    ensures line == memory
  {
    forall j | 0 <= j < |line|
      ensures line[j] == memory[j]
    {
      var k := BeatOfWord(wrap, offset, j, |line|);
      assert line[WordOfBeat(wrap, offset, k, |line|)] == received[k];
    }
  }

  lemma BeatOfWord(wrap: bool, offset: nat, j: nat, beats: nat) returns (k: nat)
    requires j < beats
    ensures k < beats && WordOfBeat(wrap, offset, k, beats) == j
  {
    if wrap {
      var o := offset % beats;
      k := if j >= o then j - o else j + beats - o;
      assert offset == (offset / beats) * beats + o;
      if j >= o {
        DivModUnique(offset + k, beats, offset / beats, j);
      } else {
        assert (offset / beats + 1) * beats == (offset / beats) * beats + beats;
        DivModUnique(offset + k, beats, offset / beats + 1, j);
      }
    } else {
      k := j;
    }
  }

  // ---------- The registers ----------

  // cache_line_q is `line`, addr_offset_q `offset`.
  datatype Regs = Regs(state: State, cnt: nat, offset: nat, id: nat, line: seq<nat>)

  predicate Fits(beats: nat, r: Regs) {
    beats >= 2 && |r.line| == beats && r.cnt < beats && r.offset < beats
  }

  predicate InWrite(st: State) {
    st in {WaitAwReady, WaitLastWReady, WaitLastWReadyAwReady, WaitAwReadyBurst}
  }

  predicate Writing(r: Regs, i: Input) {
    (r.state.Idle? && i.req && i.we) || InWrite(r.state)
  }

  // The request is still of the kind with which the state was entered, and has
  // its data.
  predicate Held(beats: nat, i: Input, r: Regs) {
    && |i.wdata| == |i.be| == beats
    && match r.state
       case WaitAwReady => i.single
       case WaitLastWReady => r.cnt < Total(i.single, beats)
       case WaitLastWReadyAwReady => !i.single
       case WaitAwReadyBurst => !i.single
       case _ => true
  }

  // How far a write is, from the state and the word counter.
  function Progress(beats: nat, i: Input, r: Regs): Write
    requires Fits(beats, r) && Held(beats, i, r)
  {
    match r.state
    case WaitAwReady => Write(false, 1)
    case WaitLastWReady => Write(true, Total(i.single, beats) - 1 - r.cnt)
    case WaitLastWReadyAwReady => Write(false, beats - 1 - r.cnt)
    case WaitAwReadyBurst => Write(false, beats)
    case _ => NOT_STARTED
  }

  // A cycle of a write: what it offers, and where the registers stand after it.
  ghost predicate WriteEdge(beats: nat, r: Regs, i: Input, o: WriteOutput, d: Regs)
    requires Fits(beats, r) && Held(beats, i, r)
  {
    var w := Progress(beats, i, r);
    && WriteOffers(w, beats, i, o)
    && d.cnt < beats && d == r.(state := d.state, cnt := d.cnt)
    && if o.grant then d.state.WaitBValid?
       else
         && (d.state.Idle? || InWrite(d.state)) && Held(beats, i, d)
         && Progress(beats, i, d) == WriteNext(w, Total(i.single, beats), i.awReady, i.wReady)
  }

  // What a cycle's outputs say about a read. `received` is the number of beats
  // so far, `offset` the requested word within the line.
  ghost predicate ReadOffers(st: State, critical: bool, beats: nat, offset: nat, received: nat, i: Input, o: ReadOutput)
    requires beats > 0
  {
    && o.arValid == (st.Idle? && i.req && !i.we)
    && (o.arValid ==>
          && o.arLen == Total(i.single, beats) - 1 && o.arWrap == (critical && !i.single)
          && o.arAddr == (if critical || i.single then i.addr else LineBase(i.addr, beats)))
    && o.grant == (o.arValid && i.arReady)
    && o.rReady == (st.WaitRValid? || st.WaitRValidMultiple?)
    // the requested word is passed on in the one beat that carries it
    && (st.WaitRValidMultiple? ==>
          && o.criticalWordValid == (i.rValid && WordOfBeat(critical, offset, received, beats) == offset)
          && (o.criticalWordValid ==> o.criticalWord == i.rData))
    && (o.criticalWordValid ==> st.WaitRValid? || st.WaitRValidMultiple?)
    && o.valid == (st.CompleteRead? || (st.WaitBValid? && i.bValid))
    && o.bReady == st.WaitBValid? && (st.WaitBValid? ==> o.id == i.bId)
  }

  // Where the cache line takes the next beat.
  function BeatIndex(beats: nat, critical: bool, r: Regs): (k: nat)
    requires Fits(beats, r)
    ensures k < beats
  {
    if r.state.WaitRValidMultiple? then
      if critical then (r.offset + (beats - 1 - r.cnt)) % beats else beats - 1 - r.cnt
    else 0
  }

  // A cycle of anything else: starting a read, taking its beats, the responses.
  ghost predicate ReadEdge(beats: nat, critical: bool, r: Regs, i: Input, o: ReadOutput, d: Regs)
    requires Fits(beats, r)
  {
    && ReadOffers(r.state, critical, beats, r.offset, beats - 1 - r.cnt, i, o)
    && (r.state.CompleteRead? ==> o.id == r.id)
    && d == match r.state
       case Idle =>
         var started := r.(cnt := if i.req && !i.single then beats - 1 else 0);
         if o.grant then
           started.(state := if i.single then WaitRValid else WaitRValidMultiple,
                    offset := RequestedWord(i.addr, beats))
         else started
       case WaitBValid => r.(state := if i.bValid then Idle else WaitBValid)
       case CompleteRead => r.(state := Idle)
       case _ =>
         if !i.rValid then r
         else
           r.(state := if i.rLast then CompleteRead else r.state, cnt := if r.cnt == 0 then beats - 1 else r.cnt - 1,
              id := if i.rLast then i.rId else r.id, line := r.line[BeatIndex(beats, critical, r) := i.rData])
  }

  // ---------- Runs of the registers ----------

  datatype Cycle = OfWrite(i: Input, w: WriteOutput, after: Regs) | OfRead(i: Input, o: ReadOutput, after: Regs)

  ghost predicate Run(beats: nat, critical: bool, r: Regs, run: seq<Cycle>)
    decreases |run|
  {
    run == [] ||
    (var c := run[0];
     && Fits(beats, r) && c.OfWrite? == Writing(r, c.i)
     && (if c.OfWrite? then Held(beats, c.i, r) && WriteEdge(beats, r, c.i, c.w, c.after)
         else ReadEdge(beats, critical, r, c.i, c.o, c.after))
     && Run(beats, critical, c.after, run[1..]))
  }

  predicate Granted(c: Cycle) {
    if c.OfWrite? then c.w.grant else c.o.grant
  }

  predicate Answered(c: Cycle) {
    c.OfRead? && c.o.valid
  }

  // The run ends with the first response.
  predicate UntilAnswer(run: seq<Cycle>)
    decreases |run|
  {
    run != [] && if |run| == 1 then Answered(run[0]) else !Answered(run[0]) && UntilAnswer(run[1..])
  }

  function Grants(run: seq<Cycle>): nat {
    if run == [] then 0 else (if Granted(run[0]) then 1 else 0) + Grants(run[1..])
  }

  // ---------- A write, from request to response ----------

  datatype Beat = Beat(data: nat, strobe: nat, last: bool)

  // The words the bus takes over a run, and its address handshakes.
  function WordOut(c: Cycle): seq<Beat> {
    if c.OfWrite? && c.w.wValid && c.i.wReady then [Beat(c.w.wData, c.w.wStrb, c.w.wLast)] else []
  }

  function WordsOut(run: seq<Cycle>): seq<Beat> {
    if run == [] then [] else WordOut(run[0]) + WordsOut(run[1..])
  }

  function AddressOut(c: Cycle): nat {
    if c.OfWrite? && c.w.awValid && c.i.awReady then 1 else 0
  }

  function AddressesOut(run: seq<Cycle>): nat {
    if run == [] then 0 else AddressOut(run[0]) + AddressesOut(run[1..])
  }

  // The words of a request from a number on, the final one marked.
  function Words(req: Input, total: nat, from: nat): seq<Beat>
    requires from <= total <= |req.wdata| == |req.be|
    decreases total - from
  {
    if from == total then []
    else [Beat(req.wdata[from], req.be[from], from == total - 1)] + Words(req, total, from + 1)
  }

  // The same request stands on the inputs until it is granted.
  predicate HeldUntilGrant(req: Input, run: seq<Cycle>)
    decreases |run|
  {
    run == [] ||
    (var c := run[0];
     && SameRequest(req, c.i)
     && (!Granted(c) ==> HeldUntilGrant(req, run[1..])))
  }

  predicate SameRequest(req: Input, i: Input) {
    i.req && i.we && i.single == req.single && i.wdata == req.wdata && i.be == req.be
  }

  lemma WriteCycleCounts(beats: nat, r: Regs, c: Cycle, req: Input)
    requires Fits(beats, r) && Held(beats, req, r) && c.OfWrite? && SameRequest(req, c.i) && Writing(r, c.i)
    requires WriteEdge(beats, r, c.i, c.w, c.after)
    ensures var w, total := Progress(beats, req, r), Total(req.single, beats);
      var next := WriteNext(w, total, c.i.awReady, c.i.wReady);
      && w.sent <= next.sent <= total && WordOut(c) + Words(req, total, next.sent) == Words(req, total, w.sent)
      && AddressOut(c) + (if next.addressSent then 0 else 1) == (if w.addressSent then 0 else 1)
      && c.w.grant == Complete(next, total) && Fits(beats, c.after)
      && if c.w.grant then c.after.state.WaitBValid?
         else (c.after.state.Idle? || InWrite(c.after.state)) && Held(beats, req, c.after)
              && Progress(beats, req, c.after) == next
  {
  }

  lemma {:induction false} WriteGoesOn(beats: nat, critical: bool, r: Regs, run: seq<Cycle>, req: Input)
    requires Fits(beats, r) && Run(beats, critical, r, run) && UntilAnswer(run) && HeldUntilGrant(req, run)
    requires (r.state.Idle? || InWrite(r.state)) && Held(beats, req, r)
    ensures var w, total := Progress(beats, req, r), Total(req.single, beats);
      && Grants(run) == 1 && AddressesOut(run) == (if w.addressSent then 0 else 1)
      && w.sent <= total && WordsOut(run) == Words(req, total, w.sent)
    decreases |run|
  {
    var c, rest := run[0], run[1..];
    WriteCycleCounts(beats, r, c, req);
    if c.w.grant {
      ResponseIsAwaited(beats, critical, c.after, rest);
    } else {
      WriteGoesOn(beats, critical, c.after, rest, req);
    }
  }

  lemma {:induction false} ResponseIsAwaited(beats: nat, critical: bool, r: Regs, run: seq<Cycle>)
    requires Fits(beats, r) && Run(beats, critical, r, run) && UntilAnswer(run) && r.state.WaitBValid?
    ensures Grants(run) == 0 && AddressesOut(run) == 0 && WordsOut(run) == []
    decreases |run|
  {
    var c, rest := run[0], run[1..];
    if |run| == 1 {
      assert Grants(rest) == 0 && AddressesOut(rest) == 0 && WordsOut(rest) == [];
    } else {
      ResponseIsAwaited(beats, critical, c.after, rest);
    }
  }

  // From idle to the response, with the request held until its grant and
  // whatever the order of the ready signals: one grant, one address handshake,
  // and the request's words once each, in order, only the final one marked.
  lemma WriteIsDoneOnce(beats: nat, critical: bool, r: Regs, run: seq<Cycle>, req: Input)
    requires Fits(beats, r) && r.state.Idle? && Run(beats, critical, r, run) && UntilAnswer(run)
    requires HeldUntilGrant(req, run) && |req.wdata| == |req.be| == beats
    ensures Grants(run) == 1 && AddressesOut(run) == 1
    ensures WordsOut(run) == Words(req, Total(req.single, beats), 0)
  {
    WriteGoesOn(beats, critical, r, run, req);
  }

  // ---------- A line read, from grant to response ----------

  // The bus delivers the burst: the k-th beat is the word of memory at the place
  // its address has, and the final beat is marked.
  predicate Delivers(critical: bool, offset: nat, memory: seq<nat>, run: seq<Cycle>, k: nat)
    requires memory != []
    decreases |run|
  {
    run == [] ||
    (var c := run[0];
     var taken := c.OfRead? && c.o.rReady && c.i.rValid;
     && (taken ==> c.i.rData == memory[WordOfBeat(critical, offset, k, |memory|)] && c.i.rLast == (k == |memory| - 1))
     && Delivers(critical, offset, memory, run[1..], if taken then k + 1 else k))
  }

  function BeatsIn(run: seq<Cycle>): nat {
    if run == [] then 0
    else (if run[0].OfRead? && run[0].o.rReady && run[0].i.rValid then 1 else 0) + BeatsIn(run[1..])
  }

  // The first k beats sit at their places, and the counter agrees.
  ghost predicate Receiving(beats: nat, critical: bool, r: Regs, memory: seq<nat>, received: seq<nat>) {
    && Fits(beats, r) && |memory| == beats && |received| <= beats && Placed(r.line, critical, r.offset, received)
    && (forall j :: 0 <= j < |received| ==> received[j] == memory[WordOfBeat(critical, r.offset, j, beats)])
    && (r.state.WaitRValidMultiple? ==> |received| + 1 + r.cnt == beats)
    && (!r.state.WaitRValidMultiple? ==> r.state.CompleteRead? && |received| == beats)
  }

  lemma {:induction false} ReadGoesOn(beats: nat, critical: bool, r: Regs, run: seq<Cycle>, memory: seq<nat>,
                                      received: seq<nat>)
    requires Receiving(beats, critical, r, memory, received) && Run(beats, critical, r, run) && UntilAnswer(run)
    requires Delivers(critical, r.offset, memory, run, |received|)
    ensures run[|run| - 1].after.line == memory && Grants(run) == 0 && BeatsIn(run) == beats - |received|
    decreases |run|
  {
    if r.state.CompleteRead? {
      ReadEnds(beats, critical, r, run, memory, received);
    } else {
      var next := BeatOrPause(beats, critical, r, run, memory, received);
      ReadGoesOn(beats, critical, run[0].after, run[1..], memory, next);
    }
  }

  lemma ReadEnds(beats: nat, critical: bool, r: Regs, run: seq<Cycle>, memory: seq<nat>, received: seq<nat>)
    requires Receiving(beats, critical, r, memory, received) && r.state.CompleteRead?
    requires Run(beats, critical, r, run) && UntilAnswer(run)
    ensures |run| == 1 && run[0].after.line == memory && Grants(run) == 0 && BeatsIn(run) == 0
  {
    LineReadIsMemory(r.line, critical, r.offset, received, memory);
    assert Answered(run[0]) && Grants(run[1..]) == 0 && BeatsIn(run[1..]) == 0;
  }

  lemma NextBeatIsPlaced(beats: nat, critical: bool, r: Regs, memory: seq<nat>, received: seq<nat>, i: Input, d: Regs)
    requires Receiving(beats, critical, r, memory, received) && r.state.WaitRValidMultiple?
    requires i.rData == memory[WordOfBeat(critical, r.offset, |received|, beats)]
      && i.rLast == (|received| == beats - 1)
    requires d.line == r.line[BeatIndex(beats, critical, r) := i.rData] && d.offset == r.offset
    requires d.state == (if i.rLast then CompleteRead else r.state)
      && d.cnt == if r.cnt == 0 then beats - 1 else r.cnt - 1
    ensures Receiving(beats, critical, d, memory, received + [i.rData])
  {
    RequestedWordComesFirst(r.offset, beats, |received|);
    assert BeatIndex(beats, critical, r) == WordOfBeat(critical, r.offset, |received|, beats);
    PlaceNext(r.line, critical, r.offset, received, i.rData);
  }

  lemma BeatOrPause(beats: nat, critical: bool, r: Regs, run: seq<Cycle>, memory: seq<nat>, received: seq<nat>)
      returns (next: seq<nat>)
    requires Receiving(beats, critical, r, memory, received) && r.state.WaitRValidMultiple?
    requires Run(beats, critical, r, run) && UntilAnswer(run) && Delivers(critical, r.offset, memory, run, |received|)
    ensures var d, rest := run[0].after, run[1..];
      && |run| > 1 && Run(beats, critical, d, rest) && UntilAnswer(rest)
      && d.offset == r.offset && Receiving(beats, critical, d, memory, next)
      && Delivers(critical, r.offset, memory, rest, |next|)
      && Grants(run) == Grants(rest) && BeatsIn(run) + |received| == BeatsIn(rest) + |next|
  {
    var c := run[0];
    next := received;
    if c.i.rValid {
      next := received + [c.i.rData];
      NextBeatIsPlaced(beats, critical, r, memory, received, c.i, c.after);
    }
  }

  // From the grant of a line read to its response, with any pauses in between:
  // no other grant, as many beats as words, and the line presented is the line in
  // memory, whether the burst increments or wraps around from the requested word.
  lemma ReadPresentsMemory(beats: nat, critical: bool, r: Regs, run: seq<Cycle>, memory: seq<nat>)
    requires Fits(beats, r) && r.state.Idle? && Run(beats, critical, r, run) && UntilAnswer(run) && |memory| == beats
    requires run[0].OfRead? && run[0].o.grant && !run[0].i.single
    requires Delivers(critical, RequestedWord(run[0].i.addr, beats), memory, run, 0)
    ensures run[|run| - 1].after.line == memory && Grants(run) == 1 && BeatsIn(run) == beats
  {
    ReadGoesOn(beats, critical, run[0].after, run[1..], memory, []);
  }

  // Wrapping around from the requested word, the first beat is that word.
  lemma RequestedWordComesFirst(offset: nat, beats: nat, k: nat)
    requires offset < beats && k < beats
    ensures (offset + k) % beats == offset <==> k == 0
    ensures k % beats == k
  {
    DivModUnique(k, beats, 0, k);
    DivModUnique(offset, beats, 0, offset);
    if k > 0 {
      BeatsFillDistinctWords(true, offset, beats, 0, k);
    }
  }

  // ---------- A line read, by addresses ----------

  // The address of the k-th of `beats` 8-byte transfers of a burst, section A3.4.1
  // of the AMBA AXI specification: an incrementing burst goes up from the aligned
  // start, a wrapping one comes round at the boundary behind it.
  function BurstAddress(start: nat, wrap: bool, beats: nat, k: nat): int
    requires beats > 0
  {
    var plain, length := start - start % 8 + 8 * k, 8 * beats;
    if wrap && plain >= start - start % length + length then plain - length else plain
  }

  lemma PlaceInLine(addr: nat, beats: nat)
    requires beats > 0
    ensures var m := addr % (8 * beats);
      && RequestedWord(addr, beats) == m / 8 && addr % 8 == m % 8
      && LineBase(addr, beats) % 8 == 0 && LineBase(addr, beats) % (8 * beats) == 0
  {
    var q, m := addr / (8 * beats), addr % (8 * beats);
    var e := q * beats;
    assert addr == 8 * e + m by {
      assert q * (8 * beats) == 8 * (q * beats);
    }
    assert m / 8 < beats;
    assert addr / 8 == e + m / 8;
    DivModUnique(addr / 8, beats, q, m / 8);
    assert LineBase(addr, beats) == 8 * e;
    DivModUnique(8 * e, 8 * beats, q, 0);
  }

  // The k-th transfer of the burst that is asked for carries the word of the line
  // that the adapter takes it for.
  lemma BurstCoversLine(addr: nat, wrap: bool, beats: nat, k: nat)
    requires k < beats
    ensures BurstAddress(if wrap then addr else LineBase(addr, beats), wrap, beats, k)
         == LineBase(addr, beats) + 8 * WordOfBeat(wrap, RequestedWord(addr, beats), k, beats)
  {
    PlaceInLine(addr, beats);
    var o := RequestedWord(addr, beats);
    if !wrap {
      DivModUnique(k, beats, 0, k);
    } else if o + k < beats {
      DivModUnique(o + k, beats, 0, o + k);
    } else {
      DivModUnique(o + k, beats, 1, o + k - beats);
    }
  }

  predicate TakesBeat(c: Cycle) {
    c.OfRead? && c.o.rReady && c.i.rValid
  }

  // The bus answers with what stands at the burst's addresses, and marks the
  // transfer whose number is the length it was asked for.
  ghost predicate AnswersBurst(o: ReadOutput, word: int -> nat, run: seq<Cycle>, k: nat)
    decreases |run|
  {
    run == [] ||
    (var c := run[0];
     && (TakesBeat(c) ==>
           c.i.rData == word(BurstAddress(o.arAddr, o.arWrap, o.arLen + 1, k)) && c.i.rLast == (k == o.arLen))
     && AnswersBurst(o, word, run[1..], if TakesBeat(c) then k + 1 else k))
  }

  // The words passed on ahead of the line.
  function CriticalWords(run: seq<Cycle>): seq<nat> {
    if run == [] then []
    else (if run[0].OfRead? && run[0].o.criticalWordValid then [run[0].o.criticalWord] else [])
         + CriticalWords(run[1..])
  }

  function LineAt(word: int -> nat, base: int, beats: nat): (line: seq<nat>)
    ensures |line| == beats && forall j :: 0 <= j < beats ==> line[j] == word(base + 8 * j)
  {
    seq(beats, j requires 0 <= j < beats => word(base + 8 * j))
  }

  // Where a read stands after k transfers.
  predicate Awaits(beats: nat, r: Regs, k: nat) {
    && Fits(beats, r)
    && (if r.state.WaitRValidMultiple? then k + 1 + r.cnt == beats else r.state.CompleteRead? && k == beats)
  }

  ghost predicate AsksFor(o: ReadOutput, addr: nat, critical: bool, beats: nat)
    requires beats > 0
  {
    o.arLen == beats - 1 && o.arWrap == critical && o.arAddr == if critical then addr else LineBase(addr, beats)
  }

  // One transfer: the word it brings, and whether that word is passed on.
  lemma BeatOfBurst(beats: nat, critical: bool, r: Regs, c: Cycle, o: ReadOutput, addr: nat, word: int -> nat, k: nat)
    requires Awaits(beats, r, k) && r.state.WaitRValidMultiple? && TakesBeat(c)
    requires ReadEdge(beats, critical, r, c.i, c.o, c.after)
    requires AsksFor(o, addr, critical, beats) && r.offset == RequestedWord(addr, beats)
    requires c.i.rData == word(BurstAddress(o.arAddr, o.arWrap, o.arLen + 1, k)) && c.i.rLast == (k == o.arLen)
    ensures c.i.rData == LineAt(word, LineBase(addr, beats), beats)[WordOfBeat(critical, r.offset, k, beats)]
    ensures Awaits(beats, c.after, k + 1) && c.after.offset == r.offset
    ensures c.o.criticalWordValid == (if critical then k == 0 else k == r.offset)
    ensures c.o.criticalWordValid ==> c.o.criticalWord == word(addr - addr % 8)
  {
    BurstCoversLine(addr, critical, beats, k);
    RequestedWordComesFirst(r.offset, beats, k);
    if c.o.criticalWordValid {
      PlaceInLine(addr, beats);
    }
  }

  lemma {:induction false} BurstDelivers(beats: nat, critical: bool, r: Regs, run: seq<Cycle>, o: ReadOutput,
                                         addr: nat, word: int -> nat, k: nat)
    requires Awaits(beats, r, k) && Run(beats, critical, r, run) && UntilAnswer(run)
    requires AsksFor(o, addr, critical, beats) && r.offset == RequestedWord(addr, beats)
    requires AnswersBurst(o, word, run, k)
    ensures Delivers(critical, r.offset, LineAt(word, LineBase(addr, beats), beats), run, k)
    ensures CriticalWords(run) ==
      if k < beats && (if critical then k == 0 else k <= r.offset) then [word(addr - addr % 8)] else []
    decreases |run|
  {
    var c, rest, line := run[0], run[1..], LineAt(word, LineBase(addr, beats), beats);
    if r.state.CompleteRead? {
      assert Answered(c) && rest == [];
      assert CriticalWords(rest) == [];
    } else if c.i.rValid {
      BeatOfBurst(beats, critical, r, c, o, addr, word, k);
      BurstDelivers(beats, critical, c.after, rest, o, addr, word, k + 1);
    } else {
      BurstDelivers(beats, critical, c.after, rest, o, addr, word, k);
    }
  }

  // From the grant of a line read to its response, by the addresses alone: if the
  // bus answers the burst asked for with what stands at its addresses, word j of
  // the line presented is what stands at the line's base plus 8 * j, and the word
  // of the requested address is passed on early, once.
  lemma BurstPresentsMemory(beats: nat, critical: bool, r: Regs, run: seq<Cycle>, word: int -> nat)
    requires Fits(beats, r) && r.state.Idle? && Run(beats, critical, r, run) && UntilAnswer(run)
    requires run[0].OfRead? && run[0].o.grant && !run[0].i.single
    requires AnswersBurst(run[0].o, word, run[1..], 0)
    ensures var addr, line := run[0].i.addr, run[|run| - 1].after.line;
      && |line| == beats && (forall j :: 0 <= j < beats ==> line[j] == word(addr - addr % (8 * beats) + 8 * j))
      && CriticalWords(run) == [word(addr - addr % 8)]
  {
    var addr := run[0].i.addr;
    BurstDelivers(beats, critical, run[0].after, run[1..], run[0].o, addr, word, 0);
    ReadPresentsMemory(beats, critical, r, run, LineAt(word, LineBase(addr, beats), beats));
  }

  // ---------- The adapter ----------

  class Adapter {
    const beats: nat
    const critical: bool      // CRITICAL_WORD_FIRST
    const line: array<nat>    // cache_line_q
    var state: State
    var cnt: nat
    var offset: nat           // addr_offset_q
    var id: nat

    function Registers(): Regs
      reads this, line
    {
      Regs(state, cnt, offset, id, line[..])
    }

    predicate Valid()
      reads this, line
    {
      Fits(beats, Registers())
    }

    constructor (n: nat, criticalWordFirst: bool)
      requires n >= 2
      ensures Valid() && fresh(line) && beats == n && critical == criticalWordFirst && state == Idle
    {
      beats, critical := n, criticalWordFirst;
      line := new nat[n](_ => 0);
      state, cnt, offset, id := Idle, 0, 0, 0;
    }

    // The write half of the state machine.
    method WriteControl(i: Input) returns (o: WriteOutput, next: State, count: nat)
      requires Valid() && Writing(Registers(), i) && Held(beats, i, Registers())
      ensures WriteEdge(beats, Registers(), i, o, Registers().(state := next, cnt := count))
    {
      var last := beats - 1;
      o, next, count := WriteOutput(false, 0, false, i.wdata[0], i.be[0], false, false), state, cnt;
      match state {
        case Idle =>
          count := 0;
          o := o.(awValid := true, wValid := true);
          if i.single {
            o := o.(wLast := true, grant := i.awReady && i.wReady);
            next := if i.awReady && i.wReady then WaitBValid else if i.wReady then WaitAwReady
                    else if i.awReady then WaitLastWReady else Idle;
          } else {
            o := o.(awLen := last);
            count := if i.wReady then last - 1 else last;
            next := if i.awReady then WaitLastWReady else if i.wReady then WaitLastWReadyAwReady else Idle;
          }
        case WaitAwReady =>
          o := o.(awValid := true);
          if i.awReady {
            o := o.(grant := true);
            next := WaitBValid;
          }
        case WaitLastWReadyAwReady =>
          o := o.(wValid := true, wLast := cnt == 0, awValid := true, awLen := last);
          if !i.single {
            o := o.(wData := i.wdata[last - cnt], wStrb := i.be[last - cnt]);
          }
          if !i.awReady && i.wReady {
            if cnt == 0 {
              next := WaitAwReadyBurst;
            } else {
              count := cnt - 1;
            }
          } else if i.awReady && !i.wReady {
            next := WaitLastWReady;
          } else if i.awReady && i.wReady {
            if cnt == 0 {
              next := WaitBValid;
              o := o.(grant := true);
            } else {
              next, count := WaitLastWReady, cnt - 1;
            }
          }
        case WaitAwReadyBurst =>
          o := o.(awValid := true, awLen := last);
          if i.awReady {
            next := WaitBValid;
            o := o.(grant := true);
          }
        case WaitLastWReady =>
          o := o.(wValid := true);
          if !i.single {
            o := o.(wData := i.wdata[last - cnt], wStrb := i.be[last - cnt]);
          }
          if cnt == 0 {
            o := o.(wLast := true);
            if i.wReady {
              next := WaitBValid;
              o := o.(grant := true);
            }
          } else if i.wReady {
            count := cnt - 1;
          }
      }
    }

    // Everything else: starting a read, taking its beats, and the responses.
    method ReadControl(i: Input) returns (o: ReadOutput, d: Asked)
      requires Valid() && !Writing(Registers(), i)
      ensures d.index < beats
      ensures ReadEdge(beats, critical, Registers(), i, o,
                       Regs(d.state, d.cnt, d.offset, d.id, if d.store then line[..][d.index := i.rData] else line[..]))
    {
      o := ReadOutput(false, if critical || i.single then i.addr else LineBase(i.addr, beats), 0,
                      critical && !i.single, false, false, false, false, i.rId, i.rData, false);
      d := Asked(state, cnt, false, 0, offset, id);
      match state {
        case Idle =>
          o, d := StartRead(i, o, d);
        case WaitBValid =>
          o := o.(bReady := true, id := i.bId);
          if i.bValid {
            d := d.(state := Idle);
            o := o.(valid := true);
          }
        case CompleteRead =>
          o := o.(valid := true, id := id);
          d := d.(state := Idle);
        case _ =>
          o, d := TakeBeat(i, o, d);
      }
    }

    // An idle unit offers the address of the read that is requested.
    method StartRead(i: Input, o0: ReadOutput, d0: Asked) returns (o: ReadOutput, d: Asked)
      requires Valid() && state.Idle? && o0.arLen == 0 && !o0.arValid && !o0.grant
      requires d0 == Asked(state, cnt, false, 0, offset, id)
      ensures o == o0.(arValid := i.req, grant := i.req && i.arReady,
                       arLen := if i.req && !i.single then beats - 1 else 0)
      ensures o.grant ==> d.state == (if i.single then WaitRValid else WaitRValidMultiple)
      ensures o.grant ==> d.offset == RequestedWord(i.addr, beats)
      ensures !o.grant ==> d.state == Idle && d.offset == offset
      ensures d.cnt == (if i.req && !i.single then beats - 1 else 0) && !d.store && d.index == 0 && d.id == id
    {
      var last := beats - 1;
      o, d := o0, d0.(cnt := 0);
      if i.req {
        o := o.(arValid := true, grant := i.arReady);
        if !i.single {
          o := o.(arLen := last);
          d := d.(cnt := last);
        }
        if i.arReady {
          d := d.(state := if i.single then WaitRValid else WaitRValidMultiple,
                  offset := RequestedWord(i.addr, beats));
        }
      }
    }

    // The state machine while a read's beats come in.
    method TakeBeat(i: Input, o0: ReadOutput, d0: Asked) returns (o: ReadOutput, d: Asked)
      requires Valid() && (state.WaitRValid? || state.WaitRValidMultiple?)
      requires !o0.criticalWordValid && o0.criticalWord == i.rData
      requires d0 == Asked(state, cnt, false, 0, offset, id)
      ensures o == o0.(rReady := true, criticalWordValid := o.criticalWordValid)
      ensures !i.rValid ==> d == d0 && !o.criticalWordValid
      ensures i.rValid ==>
        d == d0.(store := true, index := BeatIndex(beats, critical, Registers()),
                 state := if i.rLast then CompleteRead else state, id := if i.rLast then i.rId else id,
                 cnt := if cnt == 0 then beats - 1 else cnt - 1)
      ensures i.rValid && state.WaitRValidMultiple? ==>
        o.criticalWordValid == (WordOfBeat(critical, offset, beats - 1 - cnt, beats) == offset)
    {
      var last := beats - 1;
      var index := if critical then (offset + (last - cnt)) % beats else last - cnt;
      RequestedWordComesFirst(offset, beats, last - cnt);
      o, d := o0.(rReady := true), d0;
      if i.rValid {
        if critical {
          if state.WaitRValidMultiple? && cnt == last {
            o := o.(criticalWordValid := true);
          }
        } else if index == offset {
          o := o.(criticalWordValid := true);
        }
        if i.rLast {
          d := d.(id := i.rId, state := CompleteRead);
        }
        d := d.(store := true, index := if state.WaitRValidMultiple? then index else 0,
                cnt := if cnt == 0 then last else cnt - 1);
      }
    }

    // A cycle of a write.
    method WriteTick(i: Input) returns (o: WriteOutput)
      requires Valid() && Writing(Registers(), i) && Held(beats, i, Registers())
      modifies this
      ensures Valid() && WriteEdge(beats, old(Registers()), i, o, Registers())
    {
      var next, count;
      o, next, count := WriteControl(i);
      state, cnt := next, count;
    }

    // A cycle of anything else. Each beat goes to its place; a completed read
    // presents the line.
    method ReadTick(i: Input) returns (o: ReadOutput)
      requires Valid() && !Writing(Registers(), i)
      modifies this, line
      ensures Valid() && ReadEdge(beats, critical, old(Registers()), i, o, Registers())
    {
      var d;
      o, d := ReadControl(i);
      if d.store {
        ghost var placed := line[..][d.index := i.rData];
        line[d.index] := i.rData;
        assert line[..] == placed;
      }
      state, cnt, offset, id := d.state, d.cnt, d.offset, d.id;
    }
  }

  // What a read cycle asks for, before the clock edge.
  datatype Asked = Asked(state: State, cnt: nat, store: bool, index: nat, offset: nat, id: nat)
}
