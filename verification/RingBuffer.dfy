/**
 The growing ring buffer, as a byte queue.

 The bytes held are `buffer[begin..end]`, or, if that range is not ascending, the tail of the array followed by its
 head. A full buffer is either `begin == end` or `begin == 0` with `end` at the capacity.
 */
module RingBuffer {

  import opened Bytes

  const MAX_PACKAGE_LEN := 1024
  const SINGLE_EXPANSION := 1024
  const MULTIPLY_EXPANSION_LIMIT := 2048
  const DEFAULT_BUFFER_LEN := 2048

  /** One entry of the vector handed to the kernel: a range of the buffer, or of the spill area beside it. */
  datatype Iov = Iov(spill: bool, off: nat, len: nat)

  datatype Fetched = Failed | OutOfBounds | Took(count: nat)

  lemma WrapOnce(x: nat, c: nat)
    requires x < 2 * c
    ensures x % c == if x < c then x else x - c
  {
  }

  ghost predicate Shape(cap: nat, begin: nat, end: nat, size: nat) {
    && begin < cap && end <= cap
    && size == (if begin < end then end - begin else if size == 0 then 0 else cap - begin + end)
    && (size == 0 ==> begin == end == 0)
  }

  /** The bytes a buffer of this shape holds, in order. */
  ghost function Queue(buf: seq<byte>, begin: nat, end: nat, size: nat): (q: seq<byte>)
    requires Shape(|buf|, begin, end, size)
    ensures |q| == size
  {
    if begin < end then buf[begin..end] else if size == 0 then [] else buf[begin..] + buf[..end]
  }

  /** `dst` with `data` written at `at`. */
  function Patched(dst: seq<byte>, at: nat, data: seq<byte>): (r: seq<byte>)
    requires at + |data| <= |dst|
    ensures |r| == |dst|
  {
    dst[..at] + data + dst[at + |data|..]
  }

  method Copy(dst: array<byte>, at: nat, data: seq<byte>)
    requires at + |data| <= dst.Length
    modifies dst
    ensures dst[..] == Patched(old(dst[..]), at, data)
  {
    forall i | 0 <= i < |data| {
      dst[at + i] := data[i];
    }
  }

  /** Free space, filled from where the queue ends: up to the capacity, then from the start. */
  ghost function Filled(buf: seq<byte>, begin: nat, end: nat, size: nat, data: seq<byte>): (r: seq<byte>)
    requires Shape(|buf|, begin, end, size) && size + |data| <= |buf|
    ensures |r| == |buf|
  {
    if begin >= end then Patched(buf, end, data)
    else
      var tail := if |buf| - end > |data| then |data| else |buf| - end;
      Patched(Patched(buf, end, data[..tail]), 0, data[tail..])
  }

  /** The end marker after `n` more bytes. */
  ghost function EndAfter(cap: nat, begin: nat, end: nat, n: nat): nat
    requires 0 < cap
  {
    if n == 0 then end else if begin >= end then end + n else (end + n) % cap
  }

  /** After the patch nothing changes. */
  lemma PatchedAfter(dst: seq<byte>, at: nat, data: seq<byte>, k: nat)
    requires at + |data| <= k <= |dst|
    ensures Patched(dst, at, data)[k..] == dst[k..]
  {
  }

  /** From `k` up to the end of the patch. */
  lemma PatchedUpTo(dst: seq<byte>, at: nat, data: seq<byte>, k: nat)
    requires k <= at && at + |data| <= |dst|
    ensures Patched(dst, at, data)[k..at + |data|] == dst[k..at] + data
  {
  }

  lemma PatchNothing(buf: seq<byte>, at: nat)
    requires at <= |buf|
    ensures Patched(buf, at, []) == buf
  {
  }

  lemma FillAppends(buf: seq<byte>, begin: nat, end: nat, size: nat, data: seq<byte>)
    requires Shape(|buf|, begin, end, size) && size + |data| <= |buf|
    ensures var end' := EndAfter(|buf|, begin, end, |data|);
      && Shape(|buf|, begin, end', size + |data|)
      && Queue(Filled(buf, begin, end, size, data), begin, end', size + |data|) == Queue(buf, begin, end, size) + data
  {
    hide Patched;
    if data == [] {
      PatchNothing(buf, end);
      PatchNothing(buf, 0);
    } else if begin >= end {
      FillBefore(buf, begin, end, size, data);
    } else {
      FillAround(buf, begin, end, size, data);
    }
  }

  lemma FillBefore(buf: seq<byte>, begin: nat, end: nat, size: nat, data: seq<byte>)
    requires Shape(|buf|, begin, end, size) && size + |data| <= |buf| && data != [] && begin >= end
    ensures var end', r := end + |data|, Patched(buf, end, data);
      Shape(|buf|, begin, end', size + |data|)
        && Queue(r, begin, end', size + |data|) == Queue(buf, begin, end, size) + data
  {
    hide Patched;
    PatchedUpTo(buf, end, data, 0);
    if size > 0 { PatchedAfter(buf, end, data, begin); }
  }

  lemma FillAround(buf: seq<byte>, begin: nat, end: nat, size: nat, data: seq<byte>)
    requires Shape(|buf|, begin, end, size) && size + |data| <= |buf| && data != [] && begin < end
    ensures var end' := (end + |data|) % |buf|;
      && Shape(|buf|, begin, end', size + |data|)
      && Queue(Filled(buf, begin, end, size, data), begin, end', size + |data|) == Queue(buf, begin, end, size) + data
  {
    hide Patched;
    WrapOnce(end + |data|, |buf|);
    var tail := if |buf| - end > |data| then |data| else |buf| - end;
    var mid, rest := Patched(buf, end, data[..tail]), data[tail..];
    var r := Patched(mid, 0, rest);
    PatchedUpTo(buf, end, data[..tail], begin);
    PatchedUpTo(mid, 0, rest, 0);
    PatchedAfter(mid, 0, rest, begin);
    assert r[..|rest|] == mid[0..0] + rest == rest;
    AroundQueue(buf, begin, end, data, tail, mid, r);
  }

  lemma AroundQueue(buf: seq<byte>, begin: nat, end: nat, data: seq<byte>, tail: nat, mid: seq<byte>, r: seq<byte>)
    requires begin < end <= |buf| == |mid| == |r| && end - begin + |data| <= |buf| && data != []
    requires tail == if |buf| - end > |data| then |data| else |buf| - end
    requires mid[begin..end + tail] == buf[begin..end] + data[..tail]
    requires r[begin..] == mid[begin..] && r[..|data| - tail] == data[tail..]
    ensures var end' := if end + |data| < |buf| then end + |data| else end + |data| - |buf|;
      && Shape(|buf|, begin, end', end - begin + |data|)
      && Queue(r, begin, end', end - begin + |data|) == buf[begin..end] + data
  {
    assert data[..tail] + data[tail..] == data;
    if end + |data| < |buf| {
      assert tail == |data| && data[..tail] == data;
      assert r[begin..end + tail] == r[begin..][..end + tail - begin] == mid[begin..][..end + tail - begin]
        == mid[begin..end + tail];
    } else {
      assert mid[begin..] == mid[begin..end + tail];
    }
  }

  /** The begin and end markers after `n` bytes have left. */
  ghost function BeginAfter(cap: nat, begin: nat, size: nat, n: nat): nat
    requires 0 < cap
  {
    if size == n then 0 else (begin + n) % cap
  }

  lemma DropLeaves(buf: seq<byte>, begin: nat, end: nat, size: nat, n: nat)
    requires Shape(|buf|, begin, end, size) && n <= size
    ensures var begin', end' := BeginAfter(|buf|, begin, size, n), if size == n then 0 else end;
      Shape(|buf|, begin', end', size - n) && Queue(buf, begin', end', size - n) == Queue(buf, begin, end, size)[n..]
  {
    WrapOnce(begin + n, |buf|);
  }

  /** `cap` doubled `k` times. */
  function Doubled(cap: nat, k: nat): nat {
    if k == 0 then cap else Doubled(cap, k - 1) + Doubled(cap, k - 1)
  }

  /** Where the first `n` bytes of the queue lie. */
  lemma PeekPrefix(buf: seq<byte>, begin: nat, end: nat, size: nat, n: nat)
    requires Shape(|buf|, begin, end, size) && n <= size
    ensures Queue(buf, begin, end, size)[..n] ==
      if begin < end then buf[begin..begin + n]
      else if size == 0 then []
      else if n <= |buf| - begin then buf[begin..begin + n]
      else buf[begin..|buf|] + buf[..n - (|buf| - begin)]
    ensures n == size ==> Queue(buf, begin, end, size)[..n] == Queue(buf, begin, end, size)
  {
  }

  // ---------------------------------------------------------------- the kernel's side of vectored I/O

  predicate InBounds(iov: seq<Iov>, cap: nat, spill: nat) {
    forall i :: 0 <= i < |iov| ==> iov[i].off + iov[i].len <= if iov[i].spill then spill else cap
  }

  /** What a vectored read of `data` makes of the buffer and the spill area: the ranges from `i` on, filled in order. */
  ghost function Scattered(buf: seq<byte>, spill: seq<byte>, iov: seq<Iov>, i: nat, data: seq<byte>)
    : (r: (seq<byte>, seq<byte>))
    requires InBounds(iov, |buf|, |spill|) && i <= |iov|
    ensures |r.0| == |buf| && |r.1| == |spill|
    decreases |iov| - i
  {
    if i == |iov| then (buf, spill)
    else
      var v := iov[i];
      var n := if v.len <= |data| then v.len else |data|;
      if v.spill then Scattered(buf, Patched(spill, v.off, data[..n]), iov, i + 1, data[n..])
      else Scattered(Patched(buf, v.off, data[..n]), spill, iov, i + 1, data[n..])
  }

  method Readv(buffer: array<byte>, spill: array<byte>, iov: seq<Iov>, data: seq<byte>)
    requires buffer != spill && InBounds(iov, buffer.Length, spill.Length)
    modifies buffer, spill
    ensures (buffer[..], spill[..]) == Scattered(old(buffer[..]), old(spill[..]), iov, 0, data)
  {
    var i, rest := 0, data;
    while i < |iov|
      invariant i <= |iov|
      invariant
        Scattered(buffer[..], spill[..], iov, i, rest) == Scattered(old(buffer[..]), old(spill[..]), iov, 0, data)
    {
      var v := iov[i];
      var n := if v.len <= |rest| then v.len else |rest|;
      if v.spill { Copy(spill, v.off, rest[..n]); } else { Copy(buffer, v.off, rest[..n]); }
      rest := rest[n..];
      i := i + 1;
    }
  }

  /** The bytes a vectored write offers. */
  function Gathered(buf: seq<byte>, iov: seq<Iov>, i: nat): seq<byte>
    requires InBounds(iov, |buf|, 0) && i <= |iov|
    decreases |iov| - i
  {
    if i == |iov| then []
    else (if iov[i].spill then [] else buf[iov[i].off..iov[i].off + iov[i].len]) + Gathered(buf, iov, i + 1)
  }

  /** The ranges of a fetch, in order. */
  function FetchRanges(begin: nat, end: nat, tail: nat, writable: nat): seq<Iov> {
    var v, w, u := Iov(false, end, tail), Iov(false, 0, begin), Iov(true, 0, MAX_PACKAGE_LEN);
    if tail > 0 then (if writable >= MAX_PACKAGE_LEN then [v, w] else [v, w, u])
    else if writable >= MAX_PACKAGE_LEN then [Iov(false, end, writable)]
    else [Iov(false, end, writable), u]
  }

  /** How much the kernel can deliver. */
  function FetchLimit(writable: int): int {
    writable + if writable >= MAX_PACKAGE_LEN then 0 else MAX_PACKAGE_LEN
  }

  ghost predicate Cut(data: seq<byte>, a: seq<byte>, rest: seq<byte>) {
    data == a + rest
  }

  /** A range in the buffer takes what it can hold, `a`, and leaves `rest`. */
  lemma ScatterOne(buf: seq<byte>, spill: seq<byte>, iov: seq<Iov>, i: nat, data: seq<byte>, a: seq<byte>,
                   rest: seq<byte>)
    requires InBounds(iov, |buf|, |spill|) && i < |iov| && !iov[i].spill && Cut(data, a, rest)
    requires |a| <= iov[i].len && (|a| < iov[i].len ==> |rest| == 0)
    ensures Scattered(buf, spill, iov, i, data) == Scattered(Patched(buf, iov[i].off, a), spill, iov, i + 1, rest)
  {
    hide Scattered, Patched;
    ScatterFirst(buf, spill, iov, i, data, |a|);
    assert data[..|a|] == a && data[|a|..] == rest;
  }

  lemma ScatterFirst(buf: seq<byte>, spill: seq<byte>, iov: seq<Iov>, i: nat, data: seq<byte>, n: nat)
    requires InBounds(iov, |buf|, |spill|) && i < |iov| && !iov[i].spill
    requires n == if iov[i].len <= |data| then iov[i].len else |data|
    ensures Scattered(buf, spill, iov, i, data) ==
      Scattered(Patched(buf, iov[i].off, data[..n]), spill, iov, i + 1, data[n..])
  {
  }

  /** The outcome of a vectored read: the buffer is now `buf`, and the spill area starts with `b`. */
  ghost predicate Delivered(r: (seq<byte>, seq<byte>), buf: seq<byte>, b: seq<byte>) {
    r.0 == buf && |b| <= |r.1| && r.1[..|b|] == b
  }

  /** The spill area takes the rest. */
  lemma SpillLast(buf: seq<byte>, spill: seq<byte>, iov: seq<Iov>, i: nat, data: seq<byte>)
    requires InBounds(iov, |buf|, |spill|) && |data| <= |spill| == MAX_PACKAGE_LEN
    requires (i == |iov| && |data| == 0) || (i + 1 == |iov| && iov[i] == Iov(true, 0, MAX_PACKAGE_LEN))
    ensures Delivered(Scattered(buf, spill, iov, i, data), buf, data)
  {
    if i < |iov| {
      assert data[..|data|] == data && data[|data|..] == [];
      assert Scattered(buf, Patched(spill, 0, data), iov, i + 1, []) == (buf, Patched(spill, 0, data));
    }
  }

  lemma FilledOnce(buf: seq<byte>, begin: nat, end: nat, size: nat, data: seq<byte>)
    requires Shape(|buf|, begin, end, size) && size + |data| <= |buf| && (begin >= end || size == |buf|)
    ensures Filled(buf, begin, end, size, data) == Patched(buf, end, data)
  {
    if begin < end {
      assert data == [];
      PatchNothing(buf, end);
      PatchNothing(buf, 0);
    }
  }

  lemma FilledTwice(buf: seq<byte>, begin: nat, end: nat, size: nat, data: seq<byte>, a: seq<byte>, b: seq<byte>)
    requires Shape(|buf|, begin, end, size) && begin <= end < |buf| && (begin == end ==> size == 0) && Cut(data, a, b)
    requires size + |data| <= |buf| && end + |a| <= |buf| && (end + |a| < |buf| ==> |b| == 0)
    ensures |b| <= |buf| && Filled(buf, begin, end, size, data) == Patched(Patched(buf, end, a), 0, b)
  {
    hide Patched;
    assert data[..|a|] == a && data[|a|..] == b;
    if begin >= end || end + |a| < |buf| {
      assert b == [] && data == a;
      PatchNothing(Patched(buf, end, a), 0);
    }
  }

  /** What `FetchRanges` lists. */
  lemma TailRanges(iov: seq<Iov>, cap: nat, begin: nat, end: nat, tail: nat, size: nat)
    requires Shape(cap, begin, end, size) && end + tail <= cap && tail <= cap - size
    requires iov == FetchRanges(begin, end, tail, cap - size) && (tail == 0 ==> end + cap - size <= cap)
    ensures InBounds(iov, cap, MAX_PACKAGE_LEN)
    ensures tail > 0 ==> |iov| >= 2 && iov[0] == Iov(false, end, tail) && iov[1] == Iov(false, 0, begin)
    ensures tail == 0 ==> |iov| >= 1 && iov[0] == Iov(false, end, cap - size)
    ensures var used := if tail > 0 then 2 else 1;
      if cap - size >= MAX_PACKAGE_LEN then |iov| == used
      else |iov| == used + 1 && iov[used] == Iov(true, 0, MAX_PACKAGE_LEN)
  {
  }

  /**
   The ranges cover the free space in queue order, then the spill area: of the bytes delivered, `a` goes into the buffer
   as if appended, and `b`, which no longer fits, into the spill area.
   */
  lemma FetchFills(buf: seq<byte>, begin: nat, end: nat, size: nat, spill: seq<byte>, data: seq<byte>, a: seq<byte>,
                   b: seq<byte>, tail: nat, iov: seq<Iov>)
    requires Shape(|buf|, begin, end, size) && !(end == |buf| && begin > 0) && |spill| == MAX_PACKAGE_LEN
    requires tail == if begin > end || (begin == end && size == |buf|) then 0 else |buf| - end
    requires iov == FetchRanges(begin, end, tail, |buf| - size) && Cut(data, a, b)
    requires size + |a| <= |buf| && (size + |a| < |buf| ==> |b| == 0) && |a| + |b| <= FetchLimit(|buf| - size)
    ensures InBounds(iov, |buf|, |spill|)
    ensures Delivered(Scattered(buf, spill, iov, 0, data), Filled(buf, begin, end, size, a), b)
  {
    hide Patched, Filled, Scattered, FetchRanges, InBounds, Delivered, Cut;
    TailRanges(iov, |buf|, begin, end, tail, size);
    if tail > 0 {
      FetchTail(buf, begin, end, size, spill, data, a, b, iov);
    } else {
      ScatterOne(buf, spill, iov, 0, data, a, b);
      SpillLast(Patched(buf, end, a), spill, iov, 1, b);
      FilledOnce(buf, begin, end, size, a);
    }
  }

  /** Free space on both sides: after the queue, then before it. */
  lemma FetchTail(buf: seq<byte>, begin: nat, end: nat, size: nat, spill: seq<byte>, data: seq<byte>, a: seq<byte>,
                  b: seq<byte>, iov: seq<Iov>)
    requires Shape(|buf|, begin, end, size) && begin <= end < |buf| && (begin == end ==> size == 0)
    requires InBounds(iov, |buf|, |spill|) && |spill| == MAX_PACKAGE_LEN && Cut(data, a, b)
    requires |iov| >= 2 && iov[0] == Iov(false, end, |buf| - end) && iov[1] == Iov(false, 0, begin)
    requires (|iov| == 2 && |b| == 0) || (|iov| == 3 && iov[2] == Iov(true, 0, MAX_PACKAGE_LEN))
    requires size + |a| <= |buf| && (size + |a| < |buf| ==> |b| == 0) && |b| <= MAX_PACKAGE_LEN
    ensures Delivered(Scattered(buf, spill, iov, 0, data), Filled(buf, begin, end, size, a), b)
  {
    hide Patched, Filled, Scattered, InBounds, Delivered, Cut;
    var a1, a2, rest := CutTwice(data, a, b, if |buf| - end <= |a| then |buf| - end else |a|);
    FilledTwice(buf, begin, end, size, a, a1, a2);
    ScatterOne(buf, spill, iov, 0, data, a1, rest);
    FetchBefore(Patched(buf, end, a1), begin, spill, rest, a2, b, iov);
  }

  lemma CutTwice(data: seq<byte>, a: seq<byte>, b: seq<byte>, k: nat)
    returns (a1: seq<byte>, a2: seq<byte>, rest: seq<byte>)
    requires Cut(data, a, b) && k <= |a|
    ensures |a1| == k && |a2| == |a| - k && |rest| == |a2| + |b|
    ensures Cut(a, a1, a2) && Cut(data, a1, rest) && Cut(rest, a2, b)
  {
    a1, a2 := a[..k], a[k..];
    rest := a2 + b;
  }

  lemma FetchBefore(buf: seq<byte>, begin: nat, spill: seq<byte>, data: seq<byte>, a: seq<byte>, b: seq<byte>,
                    iov: seq<Iov>)
    requires begin <= |buf| && InBounds(iov, |buf|, |spill|) && |spill| == MAX_PACKAGE_LEN && Cut(data, a, b)
    requires |iov| >= 2 && iov[1] == Iov(false, 0, begin)
    requires (|iov| == 2 && |b| == 0) || (|iov| == 3 && iov[2] == Iov(true, 0, MAX_PACKAGE_LEN))
    requires |a| <= begin && (|a| < begin ==> |b| == 0) && |b| <= MAX_PACKAGE_LEN
    ensures Delivered(Scattered(buf, spill, iov, 1, data), Patched(buf, 0, a), b)
  {
    hide *;
    ScatterOne(buf, spill, iov, 1, data, a, b);
    SpillLast(Patched(buf, 0, a), spill, iov, 2, b);
  }

  /** A fetch stays inside the array unless the queue ends at its end and the free space lies before it. */
  lemma FetchInBounds(cap: nat, begin: nat, end: nat, size: nat)
    requires Shape(cap, begin, end, size)
    ensures var tail := if begin > end || (begin == end && size == cap) then 0 else cap - end;
      InBounds(FetchRanges(begin, end, tail, cap - size), cap, MAX_PACKAGE_LEN) <==> !(end == cap && begin > 0)
  {
    var tail := if begin > end || (begin == end && size == cap) then 0 else cap - end;
    assert tail == 0 ==> FetchRanges(begin, end, tail, cap - size)[0] == Iov(false, end, cap - size);
  }

  function TotalLength(iov: seq<Iov>): nat {
    if iov == [] then 0 else iov[0].len + TotalLength(iov[1..])
  }

  /** A fetch offers the kernel all free space, and 1024 bytes beside it if less than that is free. */
  lemma FetchTotal(cap: nat, begin: nat, end: nat, size: nat)
    requires Shape(cap, begin, end, size)
    ensures var tail := if begin > end || (begin == end && size == cap) then 0 else cap - end;
      TotalLength(FetchRanges(begin, end, tail, cap - size)) == cap - size + if cap - size >= 1024 then 0 else 1024
  {
    var tail := if begin > end || (begin == end && size == cap) then 0 else cap - end;
    var iov := FetchRanges(begin, end, tail, cap - size);
    assert TotalLength(iov[|iov|..]) == 0;
    assert TotalLength(iov[|iov| - 1..]) == iov[|iov| - 1].len;
    if |iov| >= 2 { assert iov[1..][1..] == iov[2..] && TotalLength(iov[1..]) == iov[1].len + TotalLength(iov[2..]); }
  }

  /** The ranges of a flush. */
  function FlushRanges(begin: nat, size: nat, tail: nat): seq<Iov>
    requires tail <= size
  {
    if tail > 0 then [Iov(false, begin, tail), Iov(false, 0, size - tail)] else [Iov(false, begin, size)]
  }

  lemma GatherQueue(buf: seq<byte>, begin: nat, end: nat, size: nat, tail: nat)
    requires Shape(|buf|, begin, end, size)
    requires tail == if begin < end || (begin == end && size == 0) then 0 else |buf| - begin
    ensures tail <= size
    ensures InBounds(FlushRanges(begin, size, tail), |buf|, 0)
    ensures Gathered(buf, FlushRanges(begin, size, tail), 0) == Queue(buf, begin, end, size)
  {
    hide Gathered, Queue;
    var iov := FlushRanges(begin, size, tail);
    GatherAll(buf, iov);
    QueueRanges(buf, begin, end, size, tail);
  }

  lemma QueueRanges(buf: seq<byte>, begin: nat, end: nat, size: nat, tail: nat)
    requires Shape(|buf|, begin, end, size) && tail <= size
    requires tail == if begin < end || (begin == end && size == 0) then 0 else |buf| - begin
    ensures Queue(buf, begin, end, size) ==
      if tail > 0 then buf[begin..begin + tail] + buf[0..0 + (size - tail)] else buf[begin..begin + size]
  {
  }

  lemma GatherAll(buf: seq<byte>, iov: seq<Iov>)
    requires InBounds(iov, |buf|, 0) && 1 <= |iov| <= 2 && forall i :: 0 <= i < |iov| ==> !iov[i].spill
    ensures Gathered(buf, iov, 0) == buf[iov[0].off..iov[0].off + iov[0].len] +
      if |iov| == 1 then [] else buf[iov[1].off..iov[1].off + iov[1].len]
  {
    assert Gathered(buf, iov, |iov|) == [];
  }

  class RingBuffer {
    var begin: nat
    var end: nat
    var size: nat
    var buffer: array<byte>

    constructor ()
      ensures Valid() && fresh(buffer) && Contents() == [] && buffer.Length == 2048
    {
      begin, end, size := 0, 0, 0;
      buffer := new byte[DEFAULT_BUFFER_LEN](_ => 0);
    }

    ghost predicate Valid()
      reads this
    {
      Shape(buffer.Length, begin, end, size)
    }

    ghost function Contents(): (q: seq<byte>)
      requires Valid()
      reads this, buffer
      ensures |q| == size
    {
      Queue(buffer[..], begin, end, size)
    }

    predicate Empty()
      reads this
    {
      begin == end && size == 0
    }

    predicate IsFull()
      reads this
    {
      begin == end && size == buffer.Length
    }

    method Clear()
      requires Valid()
      modifies `begin, `end, `size
      ensures Valid() && Contents() == []
    {
      begin := 0;
      end := 0;
      size := 0;
    }

    function GetTailSpaceLen(): int
      reads this
    {
      if begin > end || IsFull() then 0 else buffer.Length - end
    }

    function GetTailContentLen(): int
      reads this
    {
      if begin < end || Empty() then 0 else buffer.Length - begin
    }

    function GetWritableCapacity(): int
      reads this
    {
      buffer.Length - size
    }

    /** The first `len` bytes, or all if there are fewer; nothing changes. */
    method Peek(len: nat) returns (data: seq<byte>)
      requires Valid()
      ensures data == if len <= size then Contents()[..len] else Contents()
    {
      hide Queue;
      if len == 0 {
        return [];
      }
      var n := if len > size then size else len;
      PeekPrefix(buffer[..], begin, end, size, n);
      if begin < end {
        return buffer[begin..begin + n];
      }
      var tail := GetTailContentLen();
      tail := if tail > n then n else tail;
      data := buffer[begin..begin + tail];
      if n > tail {
        data := data + buffer[..n - tail];
      }
    }

    /** The same bytes, taken out. */
    method Read(len: nat) returns (data: seq<byte>)
      requires Valid()
      modifies `begin, `end, `size
      ensures Valid() && data + Contents() == old(Contents()) && |data| == (if len <= old(size) then len else old(size))
      ensures begin == BeginAfter(buffer.Length, old(begin), old(size), |data|)
      ensures end == if size == 0 then 0 else old(end)
    {
      hide Queue;
      if len == 0 {
        WrapOnce(begin, buffer.Length);
        return [];
      }
      var n := if len > size then size else len;
      data := Peek(n);
      UpdateAfterRead(n);
    }

    method UpdateAfterRead(len: nat)
      requires Valid() && len <= size
      modifies `begin, `end, `size
      ensures Valid() && Contents() == old(Contents())[len..]
      ensures begin == BeginAfter(buffer.Length, old(begin), old(size), len)
      ensures end == if old(size) == len then 0 else old(end)
    {
      DropLeaves(buffer[..], begin, end, size, len);
      if size == len {
        size := 0;
        begin := 0;
        end := 0;
      } else {
        size := size - len;
        begin := (begin + len) % buffer.Length;
      }
    }

    method UpdateAfterWrite(len: nat)
      requires Valid() && size + len <= buffer.Length
      modifies `end, `size
      ensures end == EndAfter(buffer.Length, begin, old(end), len) && size == old(size) + len && Valid()
    {
      WrapOnce(end + len, buffer.Length);
      if len == 0 {
        return;
      }
      size := size + len;
      if begin >= end {
        end := end + len;
        return;
      }
      end := (end + len) % buffer.Length;
    }

    /**
     Makes room for `need` more bytes. A buffer that has to grow is relocated into a new array that holds them. Up to
     2048 bytes its length is doubled until it is enough, which is less than twice as large as needed; above that it
     grows by 1024 bytes until it is enough, which is less than 1024 larger.
     */
    method EnableWritableSpace(need: nat)
      requires Valid()
      modifies `begin, `end, `buffer
      ensures Valid() && Contents() == old(Contents()) && buffer.Length >= size + need
      ensures old(buffer.Length) >= size + need ==> buffer == old(buffer) && begin == old(begin) && end == old(end)
      ensures old(buffer.Length) < size + need ==>
        && fresh(buffer) && buffer.Length > old(buffer.Length)
        && if old(buffer.Length) <= 2048 then
             buffer.Length < 2 * (size + need) && exists k: nat :: buffer.Length == Doubled(old(buffer.Length), k)
           else
             buffer.Length < size + need + 1024 && (buffer.Length - old(buffer.Length)) % 1024 == 0
    {
      if buffer.Length >= need + size {
        return;
      }
      var needle := size + need;
      var capacity := buffer.Length;
      ghost var k: nat := 0;
      while true
        invariant buffer.Length <= capacity < needle
        invariant buffer.Length <= 2048 ==> capacity == Doubled(buffer.Length, k)
        invariant buffer.Length > 2048 ==> (capacity - buffer.Length) % 1024 == 0
        decreases needle - capacity
      {
        if buffer.Length <= MULTIPLY_EXPANSION_LIMIT {
          capacity, k := 2 * capacity, k + 1;
        } else {
          capacity := capacity + SINGLE_EXPANSION;
        }
        if capacity >= needle {
          break;
        }
      }
      Relocate(capacity);
    }

    /** Moves the contents to the start of a larger array. */
    method Relocate(capacity: nat)
      requires Valid() && capacity > buffer.Length
      modifies `begin, `end, `buffer
      ensures Valid() && Contents() == old(Contents()) && fresh(buffer) && buffer.Length == capacity
    {
      var temp := new byte[capacity](_ => 0);
      if begin < end {
        Copy(temp, 0, buffer[begin..end]);
      } else {
        Copy(temp, 0, buffer[begin..]);
        Copy(temp, GetTailContentLen(), buffer[..end]);
      }
      assert temp[..size] == Contents();
      buffer := temp;
      begin := 0;
      end := size;
    }

    /** Appends `data`. */
    method Write(data: seq<byte>) returns (len: nat)
      requires Valid()
      modifies `begin, `end, `size, `buffer, buffer
      ensures Valid() && Contents() == old(Contents()) + data && len == |data|
      ensures buffer == old(buffer) || fresh(buffer)
      ensures old(size) + |data| <= old(buffer.Length) ==>
        buffer == old(buffer) && begin == old(begin) && end == EndAfter(buffer.Length, begin, old(end), |data|)
    {
      EnableWritableSpace(|data|);
      Fill(data);
      return |data|;
    }

    /** Appends `data`, which fits. */
    method Fill(data: seq<byte>)
      requires Valid() && size + |data| <= buffer.Length
      modifies `end, `size, buffer
      ensures Valid() && Contents() == old(Contents()) + data
      ensures end == EndAfter(buffer.Length, begin, old(end), |data|)
    {
      hide Patched, Queue;
      FillAppends(buffer[..], begin, end, size, data);
      if begin >= end {
        Copy(buffer, end, data);
      } else {
        CopyAround(data);
      }
      UpdateAfterWrite(|data|);
    }

    /** Writes after the queue, up to the capacity, then at the start. */
    method CopyAround(data: seq<byte>)
      requires Valid() && size + |data| <= buffer.Length && begin < end
      modifies buffer
      ensures buffer[..] == Filled(old(buffer[..]), begin, end, size, data)
    {
      hide Patched;
      var tail := GetTailSpaceLen();
      tail := if tail > |data| then |data| else tail;
      Copy(buffer, end, data[..tail]);
      if tail < |data| {
        Copy(buffer, 0, data[tail..]);
      } else {
        assert data[tail..] == [];
        PatchNothing(buffer[..], 0);
      }
    }

    /**
     One vectored read into the free space and, when less than a package is free, a spill area. The kernel delivers
     `arrived`, or fails. With the queue at the end of the array and free space only before it, the first range would
     start at the end of the array: that is out of bounds.
     */
    method FetchDataFromFd(arrived: seq<byte>, failed: bool) returns (res: Fetched)
      requires Valid()
      requires |arrived| <= if buffer.Length - size >= 1024 then buffer.Length - size else buffer.Length - size + 1024
      modifies `begin, `end, `size, `buffer, buffer
      ensures Valid() && (buffer == old(buffer) || fresh(buffer))
      ensures res == OutOfBounds <==> old(end == buffer.Length && begin > 0)
      ensures res.Took? ==> Contents() == old(Contents()) + arrived && res.count == |arrived|
      ensures !res.Took? ==> Contents() == old(Contents())
      ensures res != OutOfBounds ==> (res == Failed <==> failed)
    {
      hide Patched, Scattered, Filled, Queue;
      var spill := new byte[MAX_PACKAGE_LEN](_ => 0);
      var writable := GetWritableCapacity();
      var iov := FetchRanges(begin, end, GetTailSpaceLen(), writable);
      if !InBounds(iov, buffer.Length, spill.Length) {
        FetchInBounds(buffer.Length, begin, end, size);
        return OutOfBounds;
      }
      FetchInBounds(buffer.Length, begin, end, size);
      if failed {
        return Failed;
      }
      Deliver(arrived, iov, spill);
      return Took(|arrived|);
    }

    /** The kernel fills the ranges; what is in the spill area is appended after them. */
    method Deliver(arrived: seq<byte>, iov: seq<Iov>, spill: array<byte>)
      requires Valid() && |arrived| <= FetchLimit(GetWritableCapacity()) && !(end == buffer.Length && begin > 0)
      requires spill != buffer && spill.Length == MAX_PACKAGE_LEN
      requires iov == FetchRanges(begin, end, GetTailSpaceLen(), GetWritableCapacity())
      modifies `begin, `end, `size, `buffer, buffer, spill
      ensures Valid() && (buffer == old(buffer) || fresh(buffer))
      ensures Contents() == old(Contents()) + arrived
    {
      hide Patched, Scattered, Filled, Queue, FetchRanges, InBounds;
      var writable := GetWritableCapacity();
      ghost var n := if |arrived| <= writable then |arrived| else writable;
      ghost var a, b, q := arrived[..n], arrived[n..], Contents();
      assert Cut(arrived, a, b);
      FetchFills(buffer[..], begin, end, size, spill[..], arrived, a, b, GetTailSpaceLen(), iov);
      FillAppends(buffer[..], begin, end, size, a);
      Readv(buffer, spill, iov, arrived);
      Settle(arrived, spill, a, b, q);
    }

    /** The end of a fetch: what is in the free space is counted in, what is in the spill area is appended. */
    method Settle(arrived: seq<byte>, spill: array<byte>, ghost a: seq<byte>, ghost b: seq<byte>, ghost q: seq<byte>)
      requires Valid() && spill != buffer && arrived == a + b && |b| <= spill.Length && spill[..|b|] == b
      requires size + |a| <= buffer.Length && (size + |a| < buffer.Length ==> |b| == 0)
      requires var end' := EndAfter(buffer.Length, begin, end, |a|);
        Shape(buffer.Length, begin, end', size + |a|) && Queue(buffer[..], begin, end', size + |a|) == q + a
      modifies `begin, `end, `size, `buffer, buffer
      ensures Valid() && (buffer == old(buffer) || fresh(buffer)) && Contents() == q + arrived
    {
      hide Queue;
      var writable := GetWritableCapacity();
      if |arrived| > writable {
        UpdateAfterWrite(writable);
        assert Contents() == q + a;
        var _ := Write(spill[..|arrived| - writable]);
        assert q + a + b == q + (a + b);
      } else {
        assert arrived == a;
        UpdateAfterWrite(|arrived|);
      }
    }

    /** One vectored write of the whole contents, of which the kernel takes the first `accepted`, or fails. */
    method FlushDataToFd(accepted: nat, failed: bool) returns (res: int, offered: seq<byte>)
      requires Valid() && accepted <= size
      modifies `begin, `end, `size
      ensures Valid() && offered == old(Contents())
      ensures res == if failed then -1 else accepted
      ensures Contents() == if failed then old(Contents()) else old(Contents())[accepted..]
    {
      var tail := GetTailContentLen();
      GatherQueue(buffer[..], begin, end, size, tail);
      offered := Gathered(buffer[..], FlushRanges(begin, size, tail), 0);
      if failed {
        return -1, offered;
      }
      UpdateAfterRead(accepted);
      return accepted, offered;
    }
  }

  /** A new buffer filled to its capacity, then read by one byte: the next fetch is out of bounds. */
  method FillReadFetch(b: byte) returns (res: Fetched)
    ensures res == OutOfBounds
  {
    var buffer := new RingBuffer();
    var _ := buffer.Write(seq(DEFAULT_BUFFER_LEN, _ => b));
    var _ := buffer.Read(1);
    res := buffer.FetchDataFromFd([], false);
  }
}
