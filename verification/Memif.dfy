/**
  Byte-granular access to target memory, tb/dpi/fesvr/memif.cc: an arbitrary
  byte range is cut into an unaligned head, an unaligned tail and aligned
  chunks between them, each moved by the debug transport.
*/
module Memif {
  import Bits
  import opened Bytes
  import opened Hart
  import opened DebugPrograms
  import Dtm

  const CHUNK_MAX_SIZE: nat := 4096

  datatype Result<T> = Ok(value: T) | Misaligned

  // The two's-complement value of a little-endian string.
  function AsSigned(bs: seq<Byte>): int {
    if 2 * Value(bs) < Span(|bs|) then Value(bs) else Value(bs) - Span(|bs|)
  }

  // ---------- What has been moved so far ----------

  // The first x bytes and the bytes from y on of a transfer of len bytes at
  // address a have reached the buffer bs; nothing past the transfer changed.
  ghost predicate Fetched(bs: seq<Byte>, before: seq<Byte>, mem: seq<Byte>, a: nat, x: nat, y: nat, len: nat)
    requires a + len <= |mem| && len <= |before|
  {
    && |bs| == |before| && x <= y <= len
    && (forall k :: 0 <= k < x ==> bs[k] == mem[a + k])
    && (forall k :: y <= k < len ==> bs[k] == mem[a + k])
    && (forall k :: len <= k < |before| ==> bs[k] == before[k])
  }

  // `after` is what the buffer becomes when n bytes from address `from` are put
  // in at x, or at the place below y.
  lemma FetchedUpwards(bs: seq<Byte>, after: seq<Byte>, before: seq<Byte>, mem: seq<Byte>, a: nat, x: nat, y: nat,
      len: nat, n: nat, from: nat)
    requires a + len <= |mem| && len <= |before|
    requires Fetched(bs, before, mem, a, x, y, len) && x + n <= y && from == a + x
    requires after == Splice(bs, x, mem[from..from + n])
    ensures Fetched(after, before, mem, a, x + n, y, len)
  {
  }

  lemma FetchedDownwards(bs: seq<Byte>, after: seq<Byte>, before: seq<Byte>, mem: seq<Byte>, a: nat, x: nat, at: nat,
      n: nat, len: nat, from: nat)
    requires a + len <= |mem| && len <= |before|
    requires Fetched(bs, before, mem, a, x, at + n, len) && x <= at && from == a + at
    requires after == Splice(bs, at, mem[from..from + n])
    ensures Fetched(after, before, mem, a, x, at, len)
  {
  }

  lemma FetchedAll(bs: seq<Byte>, before: seq<Byte>, mem: seq<Byte>, a: nat, x: nat, len: nat)
    requires a + len <= |mem| && len <= |before| && Fetched(bs, before, mem, a, x, x, len)
    ensures bs == Splice(before, 0, mem[a..a + len])
  {
  }

  // The first x bytes of src and those from y on have reached memory at
  // address a; nothing outside the transfer changed.
  ghost predicate Delivered(mem: seq<Byte>, before: seq<Byte>, src: seq<Byte>, a: nat, x: nat, y: nat, len: nat)
    requires a + len <= |before| && len <= |src|
  {
    && |mem| == |before| && x <= y <= len
    && (forall k :: 0 <= k < x ==> mem[a + k] == src[k])
    && (forall k :: y <= k < len ==> mem[a + k] == src[k])
    && (forall k :: 0 <= k < a ==> mem[k] == before[k])
    && (forall k :: a + len <= k < |before| ==> mem[k] == before[k])
  }

  // A whole chunk is written back that covers n bytes from x on, and around
  // them only what was there.
  lemma DeliveredUpwards(mem: seq<Byte>, before: seq<Byte>, src: seq<Byte>, a: nat, x: nat, y: nat, len: nat,
      base: nat, chunk: seq<Byte>, n: nat)
    requires a + len <= |before| && len <= |src|
    requires Delivered(mem, before, src, a, x, y, len) && x + n <= y
    requires base <= a + x && a + x + n <= base + |chunk| && base + |chunk| <= |mem|
    requires forall i :: 0 <= i < |chunk| ==>
               chunk[i] == if a + x <= base + i < a + x + n then src[base + i - a] else mem[base + i]
    ensures Delivered(Splice(mem, base, chunk), before, src, a, x + n, y, len)
  {
  }

  lemma DeliveredDownwards(mem: seq<Byte>, before: seq<Byte>, src: seq<Byte>, a: nat, x: nat, y: nat, len: nat,
      base: nat, chunk: seq<Byte>, n: nat)
    requires a + len <= |before| && len <= |src|
    requires Delivered(mem, before, src, a, x, y, len) && x + n <= y
    requires base <= a + y - n && a + y <= base + |chunk| && base + |chunk| <= |mem|
    requires forall i :: 0 <= i < |chunk| ==>
               chunk[i] == if a + y - n <= base + i < a + y then src[base + i - a] else mem[base + i]
    ensures Delivered(Splice(mem, base, chunk), before, src, a, x, y - n, len)
  {
  }

  lemma DeliveredAll(mem: seq<Byte>, before: seq<Byte>, src: seq<Byte>, a: nat, x: nat, len: nat)
    requires a + len <= |before| && len <= |src| && Delivered(mem, before, src, a, x, x, len)
    ensures mem == Splice(before, a, src[..len])
  {
  }

  function Least(x: nat, y: nat): nat {
    if x <= y then x else y
  }

  // addr & (align - 1), for the alignment of a chunk.
  function Low(xlen: nat, x: nat): (r: nat)
    ensures r < Width(xlen) && r <= x
    ensures r == 0 <==> Aligned(xlen, x)
  {
    if xlen == 64 then x % 8 else x % 4
  }

  // An unaligned start lies in a word of memory, and what that word does not
  // cover starts aligned.
  lemma HeadWord(xlen: nat, a: nat, left: nat, size: nat)
    requires left > 0 && a + left <= size && Aligned(xlen, size)
    ensures Aligned(xlen, a - Low(xlen, a)) && a - Low(xlen, a) + Width(xlen) <= size
    ensures var n := Least(left, Width(xlen) - Low(xlen, a));
            left > n ==> Aligned(xlen, a + n)
  {
    if xlen == 64 {
      Head8(a, size);
    } else {
      Head4(a, size);
    }
  }

  lemma Head8(a: nat, size: nat)
    requires a < size && size % 8 == 0
    ensures (a - a % 8) % 8 == 0 && a - a % 8 + 8 <= size && (a + (8 - a % 8)) % 8 == 0
  {
  }

  lemma Head4(a: nat, size: nat)
    requires a < size && size % 4 == 0
    ensures (a - a % 4) % 4 == 0 && a - a % 4 + 4 <= size && (a + (4 - a % 4)) % 4 == 0
  {
  }

  // A ragged end of an aligned range lies in a word of memory.
  lemma TailWord(xlen: nat, a: nat, left: nat, size: nat) returns (n: nat, base: nat)
    requires Low(xlen, left) != 0 && a + left <= size && Aligned(xlen, size) && Aligned(xlen, a)
    ensures n == Low(xlen, left) && n <= left && base == a + (left - n)
    ensures Aligned(xlen, left - n) && Aligned(xlen, base) && base + Width(xlen) <= size
  {
    n := Low(xlen, left);
    base := a + (left - n);
    if xlen == 64 {
      Tail8(a, left, size);
    } else {
      Tail4(a, left, size);
    }
  }

  lemma Tail8(a: nat, left: nat, size: nat)
    requires left % 8 != 0 && a + left <= size && size % 8 == 0 && a % 8 == 0
    ensures (left - left % 8) % 8 == 0 && (a + (left - left % 8)) % 8 == 0 && a + (left - left % 8) + 8 <= size
  {
  }

  lemma Tail4(a: nat, left: nat, size: nat)
    requires left % 4 != 0 && a + left <= size && size % 4 == 0 && a % 4 == 0
    ensures (left - left % 4) % 4 == 0 && (a + (left - left % 4)) % 4 == 0 && a + (left - left % 4) + 4 <= size
  {
  }

  // Page-sized steps keep the words' alignment.
  lemma PagesAligned(xlen: nat, addr: nat, len: nat, pos: nat)
    requires pos < len && pos % CHUNK_MAX_SIZE == 0 && Aligned(xlen, addr) && Aligned(xlen, len)
    ensures Aligned(xlen, addr + pos) && Aligned(xlen, Least(CHUNK_MAX_SIZE, len - pos))
  {
    var page := pos / 4096;
    assert pos == 4096 * page;
    if xlen == 64 {
      Steps8(addr, len, 512 * page);
    } else {
      Steps4(addr, len, 1024 * page);
    }
  }

  lemma NextPage(len: nat, pos: nat)
    requires pos < len && pos % CHUNK_MAX_SIZE == 0
    ensures Least(pos, len) == pos && Least(pos + CHUNK_MAX_SIZE, len) == pos + Least(CHUNK_MAX_SIZE, len - pos)
    ensures (pos + CHUNK_MAX_SIZE) % CHUNK_MAX_SIZE == 0
  {
  }

  lemma Steps8(addr: nat, len: nat, k: nat)
    requires addr % 8 == 0 && len % 8 == 0 && 8 * k <= len
    ensures (addr + 8 * k) % 8 == 0 && (len - 8 * k) % 8 == 0
  {
  }

  lemma Steps4(addr: nat, len: nat, k: nat)
    requires addr % 4 == 0 && len % 4 == 0 && 4 * k <= len
    ensures (addr + 4 * k) % 4 == 0 && (len - 4 * k) % 4 == 0
  {
  }

  // The word at base with part of it replaced.
  function Patched(mem: seq<Byte>, base: nat, width: nat, skip: nat, part: seq<Byte>): (word: seq<Byte>)
    requires base + width <= |mem| && skip + |part| <= width
    ensures |word| == width
  {
    Splice(mem[base..base + width], skip, part)
  }

  lemma PatchedBytes(mem: seq<Byte>, base: nat, width: nat, skip: nat, part: seq<Byte>)
    requires base + width <= |mem| && skip + |part| <= width
    ensures var word := Patched(mem, base, width, skip, part);
            forall i :: 0 <= i < width ==>
              word[i] == if skip <= i < skip + |part| then part[i - skip] else mem[base + i]
  {
    var word, whole := Patched(mem, base, width, skip, part), mem[base..base + width];
    forall i | 0 <= i < width
      ensures word[i] == if skip <= i < skip + |part| then part[i - skip] else mem[base + i]
    {
      assert whole[i] == mem[base + i];
    }
  }

  // `after` is what memory becomes when the word at base is put back with bytes
  // of src in it: the first ones of the transfer, or the ones below y.
  lemma PatchedFirst(mem: seq<Byte>, after: seq<Byte>, src: seq<Byte>, a: nat, len: nat, n: nat, base: nat, width: nat,
      skip: nat)
    requires a + len <= |mem| && n <= len <= |src|
    requires base + skip == a && skip + n <= width && base + width <= |mem|
    requires after == Splice(mem, base, Patched(mem, base, width, skip, src[0..n]))
    ensures Delivered(after, mem, src, a, n, len, len)
  {
    var word := Patched(mem, base, width, skip, src[0..n]);
    PatchedBytes(mem, base, width, skip, src[0..n]);
    DeliveredUpwards(mem, mem, src, a, 0, len, len, base, word, n);
  }

  lemma PatchedDownwards(mem: seq<Byte>, after: seq<Byte>, before: seq<Byte>, src: seq<Byte>, a: nat, x: nat, at: nat,
      n: nat, len: nat, base: nat, width: nat, skip: nat)
    requires a + len <= |before| && len <= |src|
    requires Delivered(mem, before, src, a, x, at + n, len) && x <= at
    requires base + skip == a + at && skip + n <= width && base + width <= |mem|
    requires after == Splice(mem, base, Patched(mem, base, width, skip, src[at..at + n]))
    ensures Delivered(after, before, src, a, x, at, len)
  {
    var word := Patched(mem, base, width, skip, src[at..at + n]);
    PatchedBytes(mem, base, width, skip, src[at..at + n]);
    DeliveredDownwards(mem, before, src, a, x, at + n, len, base, word, n);
  }

  class Memory {
    const cmemif: Dtm.Host

    constructor (host: Dtm.Host)
      ensures cmemif == host
    {
      cmemif := host;
    }

    // Memory is a whole number of words, so a word that holds a byte of it is
    // in it.
    ghost predicate Valid()
      reads cmemif
    {
      cmemif.Available() && Aligned(cmemif.xlen, |cmemif.t.cpu.mem|)
    }

    method Copy(dst: array<Byte>, at: nat, src: array<Byte>, start: nat, n: nat)
      requires at + n <= dst.Length && start + n <= src.Length && dst != src
      modifies dst
      ensures dst[..] == Splice(old(dst[..]), at, src[start..start + n])
    {
      for k := 0 to n
        invariant dst[..] == Splice(old(dst[..]), at, src[start..start + k])
      {
        dst[at + k] := src[start + k];
      }
    }

    // An aligned word in a buffer of its own.
    method Fetch(base: nat) returns (chunk: array<Byte>)
      requires Valid() && Aligned(cmemif.xlen, base) && base + Width(cmemif.xlen) <= |cmemif.t.cpu.mem|
      modifies cmemif
      ensures Valid() && cmemif.t.cpu == old(cmemif.t.cpu) && fresh(chunk)
      ensures chunk[..] == cmemif.t.cpu.mem[base..base + Width(cmemif.xlen)]
    {
      var align := cmemif.xlen / 8;
      chunk := new Byte[align];
      cmemif.ReadChunk(base, align, chunk, 0);
    }

    method Store(base: nat, chunk: array<Byte>)
      requires Valid() && Aligned(cmemif.xlen, base) && chunk.Length == Width(cmemif.xlen)
      requires base + chunk.Length <= |cmemif.t.cpu.mem|
      modifies cmemif
      ensures Valid()
      ensures cmemif.t.cpu == old(cmemif.t.cpu).(mem := Splice(old(cmemif.t.cpu.mem), base, chunk[..]))
    {
      assert chunk[0..chunk.Length] == chunk[..];
      cmemif.WriteChunk(base, chunk.Length, chunk, 0);
    }

    // One aligned word is fetched for the part of it that is wanted: n bytes
    // from position skip on go to bytes[at..].
    method ReadPart(base: nat, skip: nat, n: nat, bytes: array<Byte>, at: nat, ghost from: nat)
      requires Valid() && Aligned(cmemif.xlen, base) && skip + n <= Width(cmemif.xlen) && from == base + skip
      requires base + Width(cmemif.xlen) <= |cmemif.t.cpu.mem| && at + n <= bytes.Length
      modifies cmemif, bytes
      ensures Valid() && cmemif.t.cpu == old(cmemif.t.cpu)
      ensures bytes[..] == Splice(old(bytes[..]), at, cmemif.t.cpu.mem[from..from + n])
    {
      var chunk := Fetch(base);
      SliceInSlice(cmemif.t.cpu.mem, base, base + chunk.Length, skip, skip + n);
      assert chunk[skip..skip + n] == chunk[..][skip..skip + n];
      Copy(bytes, at, chunk, skip, n);
    }

    // One chunk of the aligned middle goes straight to the buffer.
    method ReadPage(addr: nat, n: nat, bytes: array<Byte>, at: nat, ghost a: nat, ghost before: seq<Byte>,
        ghost top: nat, ghost total: nat)
      requires Valid() && Aligned(cmemif.xlen, addr) && Aligned(cmemif.xlen, n) && 0 < n <= CHUNK_MAX_SIZE
      requires a + total <= |cmemif.t.cpu.mem| && total <= |before| && |before| == bytes.Length
      requires addr == a + at && at + n <= top <= total
      requires Fetched(bytes[..], before, cmemif.t.cpu.mem, a, at, top, total)
      modifies cmemif, bytes
      ensures Valid() && cmemif.t.cpu == old(cmemif.t.cpu)
      ensures Fetched(bytes[..], before, cmemif.t.cpu.mem, a, at + n, top, total)
    {
      ghost var bs := bytes[..];
      cmemif.ReadChunk(addr, n, bytes, at);
      FetchedUpwards(bs, bytes[..], before, cmemif.t.cpu.mem, a, at, top, total, n, addr);
    }

    // The aligned middle, at most a page at a time.
    method ReadMiddle(addr: nat, len: nat, bytes: array<Byte>, at: nat, ghost a: nat, ghost before: seq<Byte>,
        ghost total: nat)
      requires Valid() && (len > 0 ==> Aligned(cmemif.xlen, addr)) && Aligned(cmemif.xlen, len)
      requires a + total <= |cmemif.t.cpu.mem| && total <= |before| && |before| == bytes.Length
      requires addr == a + at && at + len <= total
      requires Fetched(bytes[..], before, cmemif.t.cpu.mem, a, at, at + len, total)
      modifies cmemif, bytes
      ensures Valid() && cmemif.t.cpu == old(cmemif.t.cpu)
      ensures Fetched(bytes[..], before, cmemif.t.cpu.mem, a, at + len, at + len, total)
    {
      var pos := 0;
      while pos < len
        invariant 0 <= pos && (pos < len ==> pos % CHUNK_MAX_SIZE == 0)
        invariant Valid() && cmemif.t.cpu == old(cmemif.t.cpu)
        invariant Fetched(bytes[..], before, cmemif.t.cpu.mem, a, at + Least(pos, len), at + len, total)
      {
        PagesAligned(cmemif.xlen, addr, len, pos);
        NextPage(len, pos);
        ReadPage(addr + pos, Least(CHUNK_MAX_SIZE, len - pos), bytes, at + pos, a, before, at + len, total);
        pos := pos + CHUNK_MAX_SIZE;
      }
    }

    // How an unaligned start is cut off: low bytes of its word are skipped, n
    // are wanted.
    method CutHead(addr: nat, len: nat) returns (low: nat, n: nat)
      requires Valid() && len > 0 && addr + len <= |cmemif.t.cpu.mem|
      ensures low <= addr && Aligned(cmemif.xlen, addr - low)
      ensures n <= len && low + n <= Width(cmemif.xlen) && addr - low + Width(cmemif.xlen) <= |cmemif.t.cpu.mem|
      ensures n < len ==> Aligned(cmemif.xlen, addr + n)
    {
      var align := cmemif.xlen / 8;
      HeadWord(cmemif.xlen, addr, len, |cmemif.t.cpu.mem|);
      low := Low(cmemif.xlen, addr);
      n := Least(len, align - low);
    }

    // How a ragged end is cut off: the last n of left bytes, in the word at base.
    method CutTail(addr: nat, left: nat) returns (n: nat, base: nat)
      requires Valid() && Aligned(cmemif.xlen, addr) && Low(cmemif.xlen, left) != 0
      requires addr + left <= |cmemif.t.cpu.mem|
      ensures n <= left && n <= Width(cmemif.xlen) && base == addr + (left - n)
      ensures Aligned(cmemif.xlen, left - n) && Aligned(cmemif.xlen, base)
      ensures base + Width(cmemif.xlen) <= |cmemif.t.cpu.mem|
    {
      ghost var _, _ := TailWord(cmemif.xlen, addr, left, |cmemif.t.cpu.mem|);
      n := Low(cmemif.xlen, left);
      base := addr + (left - n);
    }

    method ReadHead(addr: nat, low: nat, n: nat, len: nat, bytes: array<Byte>)
      requires Valid() && addr + len <= |cmemif.t.cpu.mem| && len <= bytes.Length
      requires low <= addr && Aligned(cmemif.xlen, addr - low)
      requires n <= len && low + n <= Width(cmemif.xlen) && addr - low + Width(cmemif.xlen) <= |cmemif.t.cpu.mem|
      modifies cmemif, bytes
      ensures Valid() && cmemif.t.cpu == old(cmemif.t.cpu)
      ensures Fetched(bytes[..], old(bytes[..]), cmemif.t.cpu.mem, addr, n, len, len)
    {
      ghost var before := bytes[..];
      ReadPart(addr - low, low, n, bytes, 0, addr);
      FetchedUpwards(before, bytes[..], before, cmemif.t.cpu.mem, addr, 0, len, len, n, addr);
    }

    method ReadTail(base: nat, n: nat, bytes: array<Byte>, x: nat, at: nat, ghost a: nat, ghost before: seq<Byte>)
      requires Valid() && Aligned(cmemif.xlen, base) && n <= Width(cmemif.xlen)
      requires base + Width(cmemif.xlen) <= |cmemif.t.cpu.mem|
      requires x <= at && at + n <= |before| == bytes.Length && base == a + at && base + n <= |cmemif.t.cpu.mem|
      requires Fetched(bytes[..], before, cmemif.t.cpu.mem, a, x, at + n, at + n)
      modifies cmemif, bytes
      ensures Valid() && cmemif.t.cpu == old(cmemif.t.cpu)
      ensures Fetched(bytes[..], before, cmemif.t.cpu.mem, a, x, at, at + n)
    {
      ghost var bs := bytes[..];
      ReadPart(base, 0, n, bytes, at, base);
      FetchedDownwards(bs, bytes[..], before, cmemif.t.cpu.mem, a, x, at, n, at + n, base);
    }

    method Read(addr: nat, len: nat, bytes: array<Byte>)
      requires Valid() && addr + len <= |cmemif.t.cpu.mem| && len <= bytes.Length
      modifies cmemif, bytes
      ensures Valid() && cmemif.t.cpu == old(cmemif.t.cpu)
      ensures bytes[..] == Splice(old(bytes[..]), 0, cmemif.t.cpu.mem[addr..addr + len])
    {
      ghost var before := bytes[..];
      // How far `bytes` and `addr` have moved on, and what is left of `len`.
      var done, left := 0, len;
      if left != 0 && Low(cmemif.xlen, addr) != 0 {
        var low, n := CutHead(addr, left);
        ReadHead(addr, low, n, len, bytes);
        done, left := n, left - n;
      }
      if Low(cmemif.xlen, left) != 0 {
        var n, base := CutTail(addr + done, left);
        ReadTail(base, n, bytes, done, len - n, addr, before);
        left := left - n;
      }
      ReadMiddle(addr + done, left, bytes, done, addr, before, len);
      FetchedAll(bytes[..], before, cmemif.t.cpu.mem, addr, done + left, len);
    }

    // ---------- Writing ----------

    // Part of an aligned word is replaced: fetched, patched and put back.
    method WritePart(base: nat, skip: nat, n: nat, bytes: array<Byte>, at: nat)
      requires Valid() && Aligned(cmemif.xlen, base) && skip + n <= Width(cmemif.xlen)
      requires base + Width(cmemif.xlen) <= |cmemif.t.cpu.mem| && at + n <= bytes.Length
      modifies cmemif
      ensures Valid()
      ensures cmemif.t.cpu == old(cmemif.t.cpu).(
                mem := Splice(old(cmemif.t.cpu.mem), base,
                              Patched(old(cmemif.t.cpu.mem), base, Width(cmemif.xlen), skip, bytes[..][at..at + n])))
    {
      var chunk := Fetch(base);
      Copy(chunk, skip, bytes, at, n);
      assert bytes[..][at..at + n] == bytes[at..at + n];
      Store(base, chunk);
    }

    method WriteHead(addr: nat, low: nat, n: nat, len: nat, bytes: array<Byte>)
      requires Valid() && addr + len <= |cmemif.t.cpu.mem| && len <= bytes.Length
      requires low <= addr && Aligned(cmemif.xlen, addr - low)
      requires n <= len && low + n <= Width(cmemif.xlen) && addr - low + Width(cmemif.xlen) <= |cmemif.t.cpu.mem|
      modifies cmemif
      ensures Valid() && cmemif.t.cpu == old(cmemif.t.cpu).(mem := cmemif.t.cpu.mem)
      ensures Delivered(cmemif.t.cpu.mem, old(cmemif.t.cpu.mem), bytes[..], addr, n, len, len)
    {
      ghost var before, base := cmemif.t.cpu.mem, addr - low;
      WritePart(addr - low, low, n, bytes, 0);
      PatchedFirst(before, cmemif.t.cpu.mem, bytes[..], addr, len, n, base, Width(cmemif.xlen), low);
    }

    method WriteTail(base: nat, n: nat, bytes: array<Byte>, x: nat, at: nat, ghost a: nat, ghost before: seq<Byte>)
      requires Valid() && Aligned(cmemif.xlen, base) && n <= Width(cmemif.xlen)
      requires base + Width(cmemif.xlen) <= |cmemif.t.cpu.mem|
      requires x <= at && at + n <= bytes.Length && base == a + at && base + n <= |before|
      requires Delivered(cmemif.t.cpu.mem, before, bytes[..], a, x, at + n, at + n)
      modifies cmemif
      ensures Valid() && cmemif.t.cpu == old(cmemif.t.cpu).(mem := cmemif.t.cpu.mem)
      ensures Delivered(cmemif.t.cpu.mem, before, bytes[..], a, x, at, at + n)
    {
      ghost var mem := cmemif.t.cpu.mem;
      WritePart(base, 0, n, bytes, at);
      PatchedDownwards(mem, cmemif.t.cpu.mem, before, bytes[..], a, x, at, n, at + n, base, Width(cmemif.xlen), 0);
    }

    // One chunk of the aligned middle comes straight from the buffer.
    method WritePage(addr: nat, n: nat, bytes: array<Byte>, at: nat, ghost a: nat, ghost before: seq<Byte>,
        ghost top: nat, ghost total: nat)
      requires Valid() && Aligned(cmemif.xlen, addr) && Aligned(cmemif.xlen, n) && 0 < n <= CHUNK_MAX_SIZE
      requires a + total <= |before| && total <= bytes.Length && addr == a + at && at + n <= top <= total
      requires Delivered(cmemif.t.cpu.mem, before, bytes[..], a, at, top, total)
      modifies cmemif
      ensures Valid() && cmemif.t.cpu == old(cmemif.t.cpu).(mem := cmemif.t.cpu.mem)
      ensures Delivered(cmemif.t.cpu.mem, before, bytes[..], a, at + n, top, total)
    {
      ghost var chunk := bytes[at..at + n];
      DeliveredUpwards(cmemif.t.cpu.mem, before, bytes[..], a, at, top, total, addr, chunk, n);
      cmemif.WriteChunk(addr, n, bytes, at);
    }

    method WriteMiddle(addr: nat, len: nat, bytes: array<Byte>, at: nat, ghost a: nat, ghost before: seq<Byte>,
        ghost total: nat)
      requires Valid() && (len > 0 ==> Aligned(cmemif.xlen, addr)) && Aligned(cmemif.xlen, len)
      requires a + total <= |before| && total <= bytes.Length && addr == a + at && at + len <= total
      requires Delivered(cmemif.t.cpu.mem, before, bytes[..], a, at, at + len, total)
      modifies cmemif
      ensures Valid() && cmemif.t.cpu == old(cmemif.t.cpu).(mem := cmemif.t.cpu.mem)
      ensures Delivered(cmemif.t.cpu.mem, before, bytes[..], a, at + len, at + len, total)
    {
      var pos := 0;
      while pos < len
        invariant 0 <= pos && (pos < len ==> pos % CHUNK_MAX_SIZE == 0)
        invariant Valid() && cmemif.t.cpu == old(cmemif.t.cpu).(mem := cmemif.t.cpu.mem)
        invariant Delivered(cmemif.t.cpu.mem, before, bytes[..], a, at + Least(pos, len), at + len, total)
      {
        PagesAligned(cmemif.xlen, addr, len, pos);
        NextPage(len, pos);
        WritePage(addr + pos, Least(CHUNK_MAX_SIZE, len - pos), bytes, at + pos, a, before, at + len, total);
        pos := pos + CHUNK_MAX_SIZE;
      }
    }

    method AllZero(bytes: array<Byte>, at: nat, len: nat) returns (zero: bool)
      requires at + len <= bytes.Length
      ensures zero <==> len != 0 && bytes[at..at + len] == Zeros(len)
    {
      zero := len != 0;
      ghost var part := bytes[at..at + len];
      for i := 0 to len
        invariant zero <==> len != 0 && forall k :: 0 <= k < i ==> part[k] == 0
      {
        assert part[i] == bytes[at + i];
        zero := zero && bytes[at + i] == 0;
      }
      assert part == Zeros(len) <==> forall k :: 0 <= k < len ==> part[k] == 0;
    }

    // The clear command, for a middle of nothing but zeros.
    method ClearMiddle(addr: nat, len: nat, bytes: array<Byte>, at: nat, ghost a: nat, ghost before: seq<Byte>,
        ghost total: nat)
      requires Valid() && Aligned(cmemif.xlen, addr) && Aligned(cmemif.xlen, len) && len > 0
      requires a + total <= |before| && total <= bytes.Length && addr == a + at && at + len <= total
      requires bytes[at..at + len] == Zeros(len)
      requires Delivered(cmemif.t.cpu.mem, before, bytes[..], a, at, at + len, total)
      modifies cmemif
      ensures Valid() && cmemif.t.cpu == old(cmemif.t.cpu).(mem := cmemif.t.cpu.mem)
      ensures Delivered(cmemif.t.cpu.mem, before, bytes[..], a, at + len, at + len, total)
    {
      ghost var zeros := Zeros(len);
      forall i | 0 <= i < len ensures zeros[i] == bytes[..][at + i] {
        assert bytes[at..at + len][i] == bytes[at + i];
      }
      DeliveredUpwards(cmemif.t.cpu.mem, before, bytes[..], a, at, at + len, total, addr, zeros, len);
      cmemif.ClearChunk(addr, len);
    }

    // Whole words: cleared in one go if they are all zero.
    method WriteWords(addr: nat, len: nat, bytes: array<Byte>, at: nat, ghost a: nat, ghost before: seq<Byte>,
        ghost total: nat)
      requires Valid() && (len > 0 ==> Aligned(cmemif.xlen, addr)) && Aligned(cmemif.xlen, len)
      requires a + total <= |before| && total <= bytes.Length && addr == a + at && at + len <= total
      requires Delivered(cmemif.t.cpu.mem, before, bytes[..], a, at, at + len, total)
      modifies cmemif
      ensures Valid() && cmemif.t.cpu == old(cmemif.t.cpu).(mem := cmemif.t.cpu.mem)
      ensures Delivered(cmemif.t.cpu.mem, before, bytes[..], a, at + len, at + len, total)
    {
      var zero := AllZero(bytes, at, len);
      if zero {
        ClearMiddle(addr, len, bytes, at, a, before, total);
      } else {
        WriteMiddle(addr, len, bytes, at, a, before, total);
      }
    }

    method Write(addr: nat, len: nat, bytes: array<Byte>)
      requires Valid() && addr + len <= |cmemif.t.cpu.mem| && len <= bytes.Length
      modifies cmemif
      ensures Valid()
      ensures cmemif.t.cpu == old(cmemif.t.cpu).(mem := Splice(old(cmemif.t.cpu.mem), addr, bytes[..len]))
    {
      ghost var before := cmemif.t.cpu.mem;
      var done, left := 0, len;
      if left != 0 && Low(cmemif.xlen, addr) != 0 {
        var low, n := CutHead(addr, left);
        WriteHead(addr, low, n, len, bytes);
        done, left := n, left - n;
      }
      if Low(cmemif.xlen, left) != 0 {
        var n, base := CutTail(addr + done, left);
        WriteTail(base, n, bytes, done, len - n, addr, before);
        left := left - n;
      }
      WriteWords(addr + done, left, bytes, done, addr, before, len);
      DeliveredAll(cmemif.t.cpu.mem, before, bytes[..], addr, done + left, len);
    }

    // ---------- Typed accessors ----------

    // read_uint8 to read_uint64.
    method ReadUint(addr: nat, size: nat) returns (r: Result<nat>)
      requires Valid() && size in {1, 2, 4, 8}
      requires addr % size == 0 ==> addr + size <= |cmemif.t.cpu.mem|
      modifies cmemif
      ensures Valid() && cmemif.t.cpu == old(cmemif.t.cpu)
      ensures r == if addr % size != 0 then Misaligned else Ok(Value(cmemif.t.cpu.mem[addr..addr + size]))
    {
      if addr % size != 0 {
        return Misaligned;
      }
      var bytes := new Byte[size];
      Read(addr, size, bytes);
      assert bytes[..] == cmemif.t.cpu.mem[addr..addr + size];
      r := Ok(Value(bytes[..]));
    }

    // read_int8 to read_int64: the same bytes, two's complement.
    method ReadInt(addr: nat, size: nat) returns (r: Result<int>)
      requires Valid() && size in {1, 2, 4, 8}
      requires addr % size == 0 ==> addr + size <= |cmemif.t.cpu.mem|
      modifies cmemif
      ensures Valid() && cmemif.t.cpu == old(cmemif.t.cpu)
      ensures r == if addr % size != 0 then Misaligned else Ok(AsSigned(cmemif.t.cpu.mem[addr..addr + size]))
    {
      var u := ReadUint(addr, size);
      match u
      case Misaligned => r := Misaligned;
      case Ok(v) => r := Ok(if 2 * v < Span(size) then v else v - Span(size));
    }

    // write_uint8 to write_uint64; a signed value arrives as its bits.
    method WriteUint(addr: nat, size: nat, v: nat) returns (r: Result<()>)
      requires Valid() && size in {1, 2, 4, 8} && v < Span(size)
      requires addr % size == 0 ==> addr + size <= |cmemif.t.cpu.mem|
      modifies cmemif
      ensures Valid()
      ensures r == if addr % size != 0 then Misaligned else Ok(())
      ensures cmemif.t.cpu == if addr % size != 0 then old(cmemif.t.cpu)
                              else old(cmemif.t.cpu).(mem := Splice(old(cmemif.t.cpu.mem), addr, Encode(v, size)))
    {
      if addr % size != 0 {
        return Misaligned;
      }
      var bytes := new Byte[size];
      var part := Encode(v, size);
      forall i | 0 <= i < size {
        bytes[i] := part[i];
      }
      assert bytes[..size] == part;
      Write(addr, size, bytes);
      r := Ok(());
    }
  }

  // ---------- A byte array ----------

  datatype Update = Update(at: nat, bytes: seq<Byte>)

  // Memory after a series of writes, each inside it.
  function After(mem: seq<Byte>, writes: seq<Update>): (r: seq<Byte>)
    requires forall u <- writes :: u.at + |u.bytes| <= |mem|
    ensures |r| == |mem|
  {
    if writes == [] then mem
    else
      var u := writes[|writes| - 1];
      Splice(After(mem, writes[..|writes| - 1]), u.at, u.bytes)
  }

  predicate Covers(u: Update, k: nat) {
    u.at <= k < u.at + |u.bytes|
  }

  // The last of the writes that covers byte k, or -1.
  function LastCover(writes: seq<Update>, k: nat): (j: int)
    ensures -1 <= j < |writes| && (j >= 0 ==> Covers(writes[j], k))
    ensures forall i :: 0 <= j < i < |writes| ==> !Covers(writes[i], k)
    ensures j == -1 ==> forall u <- writes :: !Covers(u, k)
  {
    if writes == [] then -1
    else if Covers(writes[|writes| - 1], k) then |writes| - 1
    else LastCover(writes[..|writes| - 1], k)
  }

  function ByteAfter(mem: seq<Byte>, writes: seq<Update>, k: nat): Byte
    requires k < |mem|
  {
    var j := LastCover(writes, k);
    if j < 0 then mem[k] else writes[j].bytes[k - writes[j].at]
  }

  // A byte holds what the last write that covers it put there, or what it
  // held at first.
  lemma {:induction false} LastWriteWins(mem: seq<Byte>, writes: seq<Update>, k: nat)
    requires forall u <- writes :: u.at + |u.bytes| <= |mem|
    requires k < |mem|
    ensures After(mem, writes)[k] == ByteAfter(mem, writes, k)
  {
    if writes == [] {
    } else {
      var n := |writes| - 1;
      LastWriteWins(mem, writes[..n], k);
      SpliceAt(After(mem, writes[..n]), writes[n].at, writes[n].bytes, k);
      CoverOfMore(writes, k);
    }
  }

  lemma CoverOfMore(writes: seq<Update>, k: nat)
    requires writes != []
    ensures var n := |writes| - 1;
      LastCover(writes, k) == if Covers(writes[n], k) then n else LastCover(writes[..n], k)
  {
  }

  // What a typed write stores, a typed read returns, and reads elsewhere do
  // not notice.
  lemma TypedRoundTrip(mem: seq<Byte>, addr: nat, size: nat, v: nat, other: nat, width: nat)
    requires addr + size <= |mem| && v < Span(size) && other + width <= |mem|
    ensures var after := Splice(mem, addr, Encode(v, size));
            && Value(after[addr..addr + size]) == v
            && (other + width <= addr || addr + size <= other ==>
                  Value(after[other..other + width]) == Value(mem[other..other + width]))
  {
    ValueEncode(v, size);
    var after := Splice(mem, addr, Encode(v, size));
    if other + width <= addr || addr + size <= other {
      assert after[other..other + width] == mem[other..other + width];
    }
  }

  // ---------- The same of the calls ----------

  // Any series of writes through the debug module, followed by a read of any
  // range: each byte read is what the last write that covers it put there, or
  // what memory held at first, and the hart's registers are as before.
  method WriteSeriesThenRead(m: Memory, writes: seq<Update>, addr: nat, len: nat) returns (bytes: array<Byte>)
    requires m.Valid() && addr + len <= |m.cmemif.t.cpu.mem|
    requires forall u <- writes :: u.at + |u.bytes| <= |m.cmemif.t.cpu.mem|
    modifies m.cmemif
    ensures m.Valid() && fresh(bytes) && bytes.Length == len
    ensures m.cmemif.t.cpu == old(m.cmemif.t.cpu).(mem := After(old(m.cmemif.t.cpu.mem), writes))
    ensures LastWritten(bytes[..], old(m.cmemif.t.cpu.mem), writes, addr)
  {
    ghost var mem := m.cmemif.t.cpu.mem;
    WriteSeries(m, writes);
    bytes := new Byte[len];
    m.Read(addr, len, bytes);
    ReadsLastWritten(mem, writes, addr, len);
    assert bytes[..] == After(mem, writes)[addr..addr + len];
  }

  // Each byte of a string read at addr is that of the last write covering it.
  ghost predicate LastWritten(bytes: seq<Byte>, mem: seq<Byte>, writes: seq<Update>, addr: nat)
    requires addr + |bytes| <= |mem|
  {
    forall k :: 0 <= k < |bytes| ==> bytes[k] == ByteAfter(mem, writes, addr + k)
  }

  lemma ReadsLastWritten(mem: seq<Byte>, writes: seq<Update>, addr: nat, len: nat)
    requires (forall u <- writes :: u.at + |u.bytes| <= |mem|) && addr + len <= |mem|
    ensures LastWritten(After(mem, writes)[addr..addr + len], mem, writes, addr)
  {
    var bytes := After(mem, writes)[addr..addr + len];
    forall k | 0 <= k < |bytes|
      ensures bytes[k] == ByteAfter(mem, writes, addr + k)
    {
      LastWriteWins(mem, writes, addr + k);
    }
  }

  method WriteSeries(m: Memory, writes: seq<Update>)
    requires m.Valid() && forall u <- writes :: u.at + |u.bytes| <= |m.cmemif.t.cpu.mem|
    modifies m.cmemif
    ensures m.Valid() && m.cmemif.t.cpu == old(m.cmemif.t.cpu).(mem := After(old(m.cmemif.t.cpu.mem), writes))
  {
    ghost var cpu := m.cmemif.t.cpu;
    for i := 0 to |writes|
      invariant m.Valid()
      invariant forall u <- writes[..i] :: u.at + |u.bytes| <= |cpu.mem|
      invariant m.cmemif.t.cpu == cpu.(mem := After(cpu.mem, writes[..i]))
    {
      WriteOne(m, writes[i]);
      assert writes[..i + 1][..i] == writes[..i];
    }
    assert writes[..|writes|] == writes;
  }

  method WriteOne(m: Memory, u: Update)
    requires m.Valid() && u.at + |u.bytes| <= |m.cmemif.t.cpu.mem|
    modifies m.cmemif
    ensures m.Valid()
    ensures m.cmemif.t.cpu == old(m.cmemif.t.cpu).(mem := Splice(old(m.cmemif.t.cpu.mem), u.at, u.bytes))
  {
    var bytes := new Byte[|u.bytes|];
    forall i | 0 <= i < |u.bytes| {
      bytes[i] := u.bytes[i];
    }
    assert bytes[..|u.bytes|] == u.bytes;
    m.Write(u.at, |u.bytes|, bytes);
  }

  // The number a string stands for in two's complement: in range, and the same
  // as its value but for a multiple of the span.
  lemma SignedInRange(bs: seq<Byte>)
    requires bs != []
    ensures -(Span(|bs|) as int) <= 2 * AsSigned(bs) < Span(|bs|)
    ensures AsSigned(bs) % Span(|bs|) == Value(bs)
  {
    ValueBelow(bs);
    var s := Span(|bs|);
    Bits.DivModUnique(AsSigned(bs), s, if AsSigned(bs) < 0 then -1 else 0, Value(bs));
  }

  lemma SignedOfWrapped(v: int, size: nat)
    requires size > 0 && -(Span(size) as int) <= 2 * v < Span(size)
    ensures v % Span(size) < Span(size) && AsSigned(Encode(v % Span(size), size)) == v
  {
    var s := Span(size);
    Bits.DivModUnique(v, s, if v < 0 then -1 else 0, if v < 0 then v + s else v);
    ValueEncode(v % s, size);
  }

  // A signed value goes out as its bits and comes back as itself, for every value
  // the width can hold.
  method WriteThenReadInt(m: Memory, addr: nat, size: nat, v: int) returns (w: Result<()>, same: Result<int>)
    requires m.Valid() && size in {1, 2, 4, 8} && -(Span(size) as int) <= 2 * v < Span(size)
    requires addr % size == 0 ==> addr + size <= |m.cmemif.t.cpu.mem|
    modifies m.cmemif
    ensures m.Valid()
    ensures if addr % size == 0 then w == Ok(()) && same == Ok(v) else w == Misaligned && same == Misaligned
  {
    SignedOfWrapped(v, size);
    w := m.WriteUint(addr, size, v % Span(size));
    same := m.ReadInt(addr, size);
  }

  // The k-th byte of a number's string is its k-th digit to base 256.
  lemma {:induction false} DigitAt(v: nat, n: nat, k: nat)
    requires k < n
    ensures Encode(v, n)[k] == (v / Span(k)) % 256
    decreases n
  {
    if k > 0 {
      DigitAt(v / 256, n - 1, k - 1);
      LowByteFirst(v, Span(k - 1));
    }
  }

  // The bytes of a typed value lie in memory from the least significant one up.
  method WriteThenReadByte(m: Memory, addr: nat, size: nat, v: nat, k: nat) returns (w: Result<()>, b: Result<nat>)
    requires m.Valid() && size in {1, 2, 4, 8} && v < Span(size) && k < size
    requires addr % size == 0 && addr + size <= |m.cmemif.t.cpu.mem|
    modifies m.cmemif
    ensures m.Valid() && w == Ok(()) && b == Ok((v / Span(k)) % 256)
  {
    w := m.WriteUint(addr, size, v);
    b := m.ReadUint(addr + k, 1);
    DigitAt(v, size, k);
    var mem := m.cmemif.t.cpu.mem;
    assert mem[addr + k] == mem[addr..addr + size][k];
    assert mem[addr + k..addr + k + 1] == [mem[addr + k]];
    OneByte(mem[addr + k]);
  }

  lemma OneByte(b: Byte)
    ensures Value([b]) == b
  {
    assert [b][1..] == [];
  }

  // A typed write followed by typed reads: of the same place, which gives the
  // value, and of any place apart, which gives what it gave before.
  method WriteThenReadUint(m: Memory, addr: nat, size: nat, v: nat, other: nat, width: nat)
    returns (w: Result<()>, same: Result<nat>, before: Result<nat>, after: Result<nat>)
    requires m.Valid() && size in {1, 2, 4, 8} && v < Span(size) && width in {1, 2, 4, 8}
    requires addr % size == 0 ==> addr + size <= |m.cmemif.t.cpu.mem|
    requires other % width == 0 ==> other + width <= |m.cmemif.t.cpu.mem|
    modifies m.cmemif
    ensures m.Valid()
    ensures w == (if addr % size == 0 then Ok(()) else Misaligned)
      && same == (if addr % size == 0 then Ok(v) else Misaligned)
    ensures addr % size != 0 || other + width <= addr || addr + size <= other ==> after == before
  {
    before := m.ReadUint(other, width);
    ghost var mem := m.cmemif.t.cpu.mem;
    w := m.WriteUint(addr, size, v);
    same := m.ReadUint(addr, size);
    after := m.ReadUint(other, width);
    if addr % size == 0 {
      if other % width == 0 {
        TypedRoundTrip(mem, addr, size, v, other, width);
      } else {
        TypedRoundTrip(mem, addr, size, v, addr, 0);
      }
    }
  }
}
