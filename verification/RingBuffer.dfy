/** The power-of-two ring buffer: a bounded FIFO with split copies at the wrap, and a consumer that may
    be interrupted by producers between any two of its accesses to the shared indices. */
module RingBuffer {
  import opened Words

  /** Index of the k-th byte from t in a buffer of n. */
  function Slot(t: nat, k: nat, n: nat): nat {
    if t + k < n then t + k else t + k - n
  }

  /** How far h is ahead of t, going round. */
  function Distance(t: nat, h: nat, n: nat): (d: nat)
    requires t < n && h < n
    ensures d < n
  {
    if h >= t then h - t else h - t + n
  }

  /** head is read at h, found not to be behind tail, and read again at now, further on: the difference
      may wrap, and clipped to what was there at the first read it is still exact. */
  lemma SecondReadExact(t: nat, h: nat, now: nat, n: nat, want: nat)
    requires n <= 0x8000_0000 && t < n && h < n && now < n && t <= h
    requires want <= Distance(t, h, n) <= Distance(t, now, n)
    ensures Min(Wrap(now - t), want) == want <= n - t
  {
    if now < t {
      assert Wrap(now - t) == now - t + TWO_32;
    }
  }

  /** The m bytes that start at t, wrapping once. */
  ghost function Window(buf: seq<Byte>, t: nat, m: nat): (w: seq<Byte>)
    requires t < |buf| && m <= |buf|
    ensures |w| == m
  {
    seq(m, k requires 0 <= k < m => buf[Slot(t, k, |buf|)])
  }

  /** Writing behind the window extends it. */
  lemma WindowAppend(buf: seq<Byte>, now: seq<Byte>, t: nat, m: nat, data: seq<Byte>)
    requires |now| == |buf| && t < |buf| && m + |data| < |buf|
    requires Slot(t, m, |buf|) + |data| <= |buf|
    requires forall i :: 0 <= i < |data| ==> now[Slot(t, m, |buf|) + i] == data[i]
    requires forall i :: 0 <= i < |buf| && !(Slot(t, m, |buf|) <= i < Slot(t, m, |buf|) + |data|) ==> now[i] == buf[i]
    ensures Window(now, t, m + |data|) == Window(buf, t, m) + data
  {
    var w := Window(now, t, m + |data|);
    forall k | 0 <= k < |w|
      ensures w[k] == (Window(buf, t, m) + data)[k]
    {
      if k >= m {
        assert Slot(t, k, |buf|) == Slot(t, m, |buf|) + (k - m);
      }
    }
  }

  /** Advancing the start drops from the front. */
  lemma WindowDrop(buf: seq<Byte>, t: nat, m: nat, n: nat)
    requires t < |buf| && n <= m < |buf|
    ensures Slot(t, n, |buf|) < |buf|
    ensures Window(buf, Slot(t, n, |buf|), m - n) == Window(buf, t, m)[n..]
  {
  }

  /** The constructor's assertion: `size == (size & ~(size - 1))`, in 32 bits. */
  predicate AssertionHolds(size: U32) {
    And(size, TWO_32 - 1 - Wrap(size - 1)) == size
  }

  predicate IsPow2(s: nat) {
    s == 1 || (s > 1 && s % 2 == 0 && IsPow2(s / 2))
  }

  ghost function Log2(s: nat): (k: nat)
    requires IsPow2(s)
    ensures Pow2(k) == s
  {
    if s == 1 then 0 else 1 + Log2(s / 2)
  }

  lemma {:induction false} NoCommonBits(t: nat, w: nat)
    requires t < Pow2(w)
    ensures And(t, Pow2(w) - 1 - t) == 0
  {
    if w > 0 && t > 0 {
      var m := Pow2(w - 1);
      assert Pow2(w) == 2 * m;
      NoCommonBits(t / 2, w - 1);
      var c := 2 * m - 1 - t;
      assert t == 2 * (t / 2) + t % 2;
      assert c == 2 * (m - 1 - t / 2) + (1 - t % 2);
      assert c / 2 == m - 1 - t / 2 && c % 2 == 1 - t % 2;
      hide Pow2;
    }
  }

  /** s and its two's complement agree exactly on the lowest set bit. */
  lemma {:induction false} LowestBit(s: nat, w: nat)
    requires 0 < s < Pow2(w)
    ensures And(s, Pow2(w) - s) == s <==> IsPow2(s)
  {
    var m := Pow2(w - 1);
    assert Pow2(w) == 2 * m;
    var c := 2 * m - s;
    if s % 2 == 1 {
      NoCommonBits(s / 2, w - 1);
      hide Pow2;
      assert c == 2 * (m - 1 - s / 2) + 1;
      assert c / 2 == m - 1 - s / 2 && c % 2 == 1;
    } else {
      LowestBit(s / 2, w - 1);
      hide Pow2;
      assert c / 2 == m - s / 2 && c % 2 == 0;
    }
  }

  lemma AssertionHoldsZero()
    ensures AssertionHolds(0)
  {
    hide IsPow2, Pow2, Wrap;
  }

  /** The assertion lets exactly the powers of two pass, and 0. */
  lemma AssertionExactly(size: U32)
    ensures AssertionHolds(size) <==> size == 0 || IsPow2(size)
  {
    hide And, IsPow2, Pow2;
    if size == 0 {
      AssertionHoldsZero();
    } else {
      Pow2Values();
      LowestBit(size, 32);
      assert Wrap(size - 1) == size - 1;
      hide Wrap;
    }
  }

  lemma PrefixSlice(s: seq<Byte>, t: seq<Byte>, from: nat, n: nat)
    requires s <= t && from + n <= |s|
    ensures t[from..from + n] == s[from..from + n]
  {
  }

  /** `free()` in 32 bits. */
  function FreeOf(size: U32, head: U32, tail: U32): U32 {
    Wrap(size - And(Wrap(size + head - tail), Wrap(size - 1)) - 1)
  }

  /** A buffer of size 0 claims room for 2^32 - 1 bytes. */
  lemma ZeroSizeClaimsRoom()
    ensures AssertionHolds(0) && FreeOf(0, 0, 0) == TWO_32 - 1
  {
    AssertionHoldsZero();
    AndZero(Wrap(-1));
    hide And;
  }

  lemma AndZero(y: nat)
    ensures And(0, y) == 0
  {
  }

  /** What `getWritePointer` answers. */
  function Room(size: nat, head: nat, tail: nat): int {
    if head < tail then tail - head - 1 else if tail == 0 then size - head - 1 else size - head
  }

  /** Where the oldest byte is while tail has this value: one between the two writes of consume may be size or
      more. */
  function Oldest(size: nat, tail: nat): nat {
    if tail < size then tail else tail - size
  }

  /** What fits in one piece behind head. */
  function Fitting(size: nat, head: nat, tail: nat): int
    requires head < size && tail < 2 * size
  {
    Min(size - 1 - Distance(Oldest(size, tail), head, size), size - head)
  }

  /** Both pieces of a put of len bytes fit. */
  predicate PutFits(size: nat, head: nat, tail: nat, len: nat)
    requires head < size && tail < 2 * size
  {
    var n := Min(Room(size, head, tail), len);
    && 0 <= n <= Fitting(size, head, tail)
    && (n == 0 || n == len
        || Min(Room(size, Slot(head, n, size), tail), len - n) <= Fitting(size, Slot(head, n, size), tail))
  }

  /** A producer that looks now keeps to the free space, however much it brings. */
  ghost predicate PutsFit(size: nat, head: nat, tail: nat)
    requires head < size && tail < 2 * size
  {
    forall len: nat :: PutFits(size, head, tail, len)
  }

  /** Where a consume that drops no more than there is can be interrupted: head is not behind the new oldest
      byte. */
  lemma StoppedHead(size: nat, tail: nat, head: nat, n: nat)
    requires tail < size && head < size && n <= Distance(tail, head, size) && size <= tail + n
    ensures tail + n - size <= head
  {
  }

  /** Interrupted between its two writes, with tail at old tail + n, consume is safe from a put of any length
      exactly when the dropped bytes end with the buffer or before it; get drops no others. */
  lemma ConsumeSafeExactly(size: nat, tail: nat, head: nat, n: nat)
    requires tail < size && head < size && n <= Distance(tail, head, size)
    ensures PutsFit(size, head, tail + n) <==> tail + n <= size
  {
    if tail + n > size {
      StoppedHead(size, tail, head, n);
      PastEndOverruns(size, head, tail + n);
    } else {
      UpToEndFits(size, head, tail + n);
    }
  }

  /** A put longer than the buffer overruns: at once, or with its second piece. */
  lemma PastEndOverruns(size: nat, head: nat, tail: nat)
    requires size < tail && tail - size <= head < size
    ensures !PutFits(size, head, tail, size + 1)
  {
  }

  lemma UpToEndFits(size: nat, head: nat, tail: nat)
    requires head < size && tail <= size
    ensures PutsFit(size, head, tail)
  {
  }

  lemma SliceSnoc(s: seq<Byte>, from: nat, k: nat)
    requires from + k < |s|
    ensures s[from..from + k + 1] == s[from..from + k] + [s[from + k]]
  {
  }

  lemma SliceJoin(s: seq<Byte>, n: nat, m: nat)
    requires n + m <= |s|
    ensures s[..n + m] == s[..n] + s[n..n + m]
  {
  }

  /** Taking n elements and then m more. */
  lemma TakeTwice(s: seq<Byte>, n: nat, m: nat)
    requires n + m <= |s|
    ensures s[..n] + s[n..][..m] == s[..n + m] && s[n..][m..] == s[n + m..]
  {
  }

  method CopyIn(to: array<Byte>, at: nat, data: seq<Byte>)
    requires at + |data| <= to.Length
    modifies to
    ensures forall i :: 0 <= i < |data| ==> to[..][at + i] == data[i]
    ensures forall i :: 0 <= i < to.Length && !(at <= i < at + |data|) ==> to[..][i] == old(to[..])[i]
  {
    forall i | 0 <= i < |data| {
      to[at + i] := data[i];
    }
  }

  class Ring {
    var head: U32
    var tail: U32
    const size: U32
    const mask: U32
    const buffer: array<Byte>
    ghost const bits: nat
    /** Every byte producers have put in, and every byte that has left, oldest first. */
    ghost var accepted: seq<Byte>
    ghost var taken: seq<Byte>

    ghost predicate Wired() {
      size == Pow2(bits) && mask == size - 1 && buffer.Length == size
    }

    ghost predicate InRange()
      reads this
    {
      Wired() && head < size && tail <= size
    }

    /** The read position; a tail caught at size stands for 0. */
    ghost function ReadAt(): (t: nat)
      requires InRange()
      reads this
      ensures t < size
    {
      if tail == size then 0 else tail
    }

    ghost function Used(): (n: nat)
      requires InRange()
      reads this
      ensures n < size
    {
      Distance(ReadAt(), head, size)
    }

    ghost function Contents(): (c: seq<Byte>)
      requires InRange()
      reads this, buffer
      ensures |c| == Used()
    {
      Window(buffer[..], ReadAt(), Used())
    }

    /** First in, first out: what has left, followed by what is inside, is what came in. This holds at
        every access to the indices, also while the consumer is caught between the two writes of
        consume, with tail equal to size. */
    ghost predicate Shared()
      reads this, buffer
    {
      InRange() && accepted == taken + Contents()
    }

    ghost predicate Valid()
      reads this, buffer
    {
      Shared() && tail < size
    }

    /** Every size the assertion admits. A power of two gives an empty buffer; 0, which it admits too, gives
        one that no invariant holds for. */
    constructor (size: U32)
      requires AssertionHolds(size)
      ensures this.size == size && head == tail == 0 && mask == Wrap(size - 1) && fresh(buffer)
      ensures Valid() <==> size != 0
      ensures size != 0 ==> Contents() == []
    {
      AssertionExactly(size);
      this.size, bits := size, if size == 0 then 0 else Log2(size);
      mask := Wrap(size - 1);
      head, tail, accepted, taken := 0, 0, [], [];
      buffer := new Byte[size](_ => 0);
    }

    /** `x & _mask` for an index expression, which never exceeds 32 bits. */
    method Masked(x: nat) returns (r: U32)
      requires Wired() && x < 2 * size
      ensures x < TWO_32 && r == And(x, mask) == if x < size then x else x - size
    {
      Pow2Fits(bits);
      MaskBelowTwice(x, bits);
      r := And(x, mask);
    }

    // ---- Queries -----------------------------------------------------------------------------

    method Count() returns (n: U32)
      requires Valid()
      ensures n == |Contents()| == And(Wrap(size + head - tail), mask)
    {
      hide And, Pow2;
      n := Masked(size + head - tail);
    }

    method Free() returns (n: U32)
      requires Valid()
      ensures n + |Contents()| == size - 1 && n == FreeOf(size, head, tail)
    {
      hide And, Pow2, Window, Distance, Slot;
      var c := Count();
      n := size - c - 1;
    }

    method Empty() returns (r: bool)
      requires Valid()
      ensures r <==> Contents() == []
    {
      r := head == tail;
    }

    method Full() returns (r: bool)
      requires Valid()
      ensures r <==> |Contents()| == size - 1
    {
      var last := Masked(tail + size - 1);
      r := head == last;
    }

    method Flush()
      requires Valid()
      modifies this`head, this`tail, this`taken
      ensures Valid() && Contents() == [] && taken == accepted
    {
      tail, head, taken := 0, 0, accepted;
    }

    // ---- Producer ----------------------------------------------------------------------------

    /** Contiguous free space at the write position. */
    method GetWritePointer() returns (to: U32, n: U32)
      requires Shared()
      ensures to == head && n == Room(size, head, tail) == Min(size - 1 - Used(), size - head)
    {
      to := head;
      if head < tail {
        return to, tail - head - 1;
      }
      n := size - head;
      if tail == 0 {
        n := n - 1;
      }
    }

    /** `memcpy` of some bytes to the write position, then `add`. */
    method Append(data: seq<Byte>)
      requires Shared() && |data| <= size - 1 - Used() && head + |data| <= size
      modifies this`head, this`accepted, buffer
      ensures Shared() && accepted == old(accepted) + data && Used() == old(Used()) + |data|
    {
      hide Pow2, Window;
      ghost var was, inside := buffer[..], Contents();
      CopyIn(buffer, head, data);
      assert Slot(ReadAt(), Used(), size) == head;
      WindowAppend(was, buffer[..], ReadAt(), Used(), data);
      hide Slot;
      assert accepted + data == taken + (inside + data);
      head := Masked(head + |data|);
      accepted := accepted + data;
    }

    /** `put`: as much of the data as fits, in at most two copies. */
    method Put(data: seq<Byte>) returns (done: nat)
      requires Shared()
      modifies this`head, this`accepted, buffer
      ensures Shared() && done == Min(|data|, old(size - 1 - Used()))
      ensures accepted == old(accepted) + data[..done]
    {
      hide Pow2, Window;
      var to, n := GetWritePointer();
      if n == 0 {
        return 0;
      }
      if n > |data| {
        n := |data|;
      }
      Append(data[..n]);
      done := n;
      if done == |data| {
        return;
      }
      var rest := data[n..];
      to, n := GetWritePointer();
      if n == 0 {
        return;
      }
      if n > |rest| {
        n := |rest|;
      }
      Append(rest[..n]);
      TakeTwice(data, done, n);
      done := done + n;
    }

    // ---- Consumer, undisturbed ---------------------------------------------------------------

    /** Contiguous bytes at the read position: the zero-copy view. */
    method GetReadPointer() returns (from: U32, n: U32)
      requires Valid()
      ensures from == tail && n == Min(|Contents()|, size - tail) && from + n <= size
      ensures buffer[from..from + n] == Contents()[..n]
    {
      from := tail;
      n := if head < tail then size - tail else head - tail;
    }

    /** Drop the n oldest bytes. */
    method Consume(n: nat)
      requires Valid() && n <= |Contents()|
      modifies this`tail, this`taken
      ensures Valid() && Contents() == old(Contents())[n..] && taken == old(taken) + old(Contents())[..n]
      ensures tail == Slot(old(tail), n, size)
    {
      hide Pow2, Window;
      WindowDrop(buffer[..], tail, Used(), n);
      Pow2Fits(bits);
      taken := taken + Contents()[..n];
      tail := tail + n;
      tail := Masked(tail);
    }

    /** A round of get: copy the contiguous part, drop it. */
    method Round(to: array<Byte>, at: nat, want: nat) returns (n: nat)
      requires Valid() && want <= Used() && at + want <= to.Length && to != buffer
      modifies this`tail, this`taken, to
      ensures Valid() && n == Min(want, size - old(tail)) && (n < want ==> tail == 0)
      ensures to[at..at + n] == old(Contents())[..n] && Contents() == old(Contents())[n..]
      ensures to[..at] == old(to[..at])
      ensures taken == old(taken) + old(Contents())[..n]
      ensures forall j :: 0 <= j < to.Length && !(at <= j < at + n) ==> to[j] == old(to[j])
    {
      hide Pow2, Window, Distance;
      var from, contiguous := GetReadPointer();
      if contiguous == 0 {
        return 0;
      }
      n := Min(contiguous, want);
      ghost var view, was := buffer[from..from + contiguous], Contents();
      assert view[..n] == was[..n];
      forall i | 0 <= i < n {
        to[at + i] := buffer[from + i];
      }
      assert forall i :: 0 <= i < n ==> to[at + i] == view[i];
      assert to[at..at + n] == view[..n];
      Consume(n);
    }

    /** `get` with nobody interrupting: the oldest min(want, count) bytes, in order. */
    method Get(want: nat, to: array<Byte>) returns (done: nat)
      requires Valid() && want <= to.Length && to != buffer
      modifies this`tail, this`taken, to
      ensures Valid() && done == Min(want, old(Used()))
      ensures to[..done] == old(Contents())[..done] && Contents() == old(Contents())[done..]
      ensures forall j :: done <= j < to.Length ==> to[j] == old(to[j])
    {
      hide Pow2, Window, Slot, Distance;
      var c := Count();
      var size := Min(want, c);
      ghost var was := Contents();
      done := Round(to, 0, size);
      assert to[0..done] == to[..done];
      if done < size {
        var n := Round(to, done, size - done);
        SliceJoin(to[..], done, n);
        TakeTwice(was, done, n);
        done := done + n;
      }
    }

    // ---- Consumer, interrupted by producers --------------------------------------------------

    /** An interrupt: any number of whole puts, while the consumer is stopped. */
    method Interrupt(puts: seq<seq<Byte>>)
      requires Shared()
      modifies this`head, this`accepted, buffer
      ensures Shared() && old(accepted) <= accepted
    {
      for i := 0 to |puts|
        invariant Shared() && old(accepted) <= accepted
      {
        var done := Put(puts[i]);
      }
    }

    /** `count`, interrupted before each of its two reads. */
    method CountInterrupted(irq: nat -> seq<seq<Byte>>) returns (n: U32)
      requires Valid()
      modifies this`head, this`accepted, buffer
      ensures Valid() && old(accepted) <= accepted && old(Used()) <= n <= Used()
    {
      Interrupt(irq(0));
      var h := head;
      Interrupt(irq(1));
      var t := tail;
      hide Pow2, Window;
      n := Masked(size + h - t);
    }

    /** `getReadPointer`, interrupted before each of its reads; head is read twice. The second read may
        find that the producer has wrapped, so that head - tail wraps to a huge number: clipped to what
        the caller knows is there, the answer is right all the same. */
    method ReadPointerInterrupted(want: nat, irq: nat -> seq<seq<Byte>>) returns (from: U32, n: U32)
      requires Valid() && want <= Used()
      modifies this`head, this`accepted, buffer
      ensures Valid() && old(accepted) <= accepted
      ensures from == tail && Min(n, want) == Min(want, size - tail)
    {
      Interrupt(irq(0));
      from := tail;
      Interrupt(irq(1));
      var h := head;
      ghost var used := Used();
      Interrupt(irq(2));
      var t := tail;
      Interrupt(irq(3));
      Pow2Fits(bits);
      if t <= h {
        SecondReadExact(t, h, head, size, want);
      }
      hide Pow2, Window, Wrap, Distance;
      if h < t {
        n := size - tail;
      } else {
        n := Wrap(head - tail);
      }
    }

    /** `consume` of bytes up to the end of the buffer, interrupted between its reads and writes of tail;
        between the two writes tail may be size (see ConsumeSafeExactly for more than that). */
    method ConsumeInterrupted(n: nat, irq: nat -> seq<seq<Byte>>)
      requires Valid() && n <= Used() && tail + n <= size
      modifies this`head, this`tail, this`accepted, this`taken, buffer
      ensures Valid() && old(accepted) <= accepted
      ensures tail == if old(tail) + n == size then 0 else old(tail) + n
      ensures taken == accepted[..|old(taken)| + n]
    {
      Interrupt(irq(0));
      var x := tail;
      Interrupt(irq(1));
      Advance(x, n);
      Interrupt(irq(2));
      var y := tail;
      Interrupt(irq(3));
      Settle(y);
    }

    /** The second write of consume. */
    method Settle(y: U32)
      requires Shared() && y == tail
      modifies this`tail
      ensures Valid() && tail == (if old(tail) == size then 0 else old(tail)) && taken == old(taken)
    {
      hide Pow2, Window;
      tail := Masked(y);
    }

    /** The first write of consume. */
    method Advance(x: U32, n: nat)
      requires Valid() && x == tail && n <= Used() && tail + n <= size
      modifies this`tail, this`taken
      ensures Shared() && tail == old(tail) + n && taken == accepted[..|old(taken)| + n]
    {
      hide Pow2, Window;
      WindowDrop(buffer[..], tail, Used(), n);
      taken := taken + Contents()[..n];
      tail := x + n;
    }

    /** Byte k from the read position is byte k of what has not been taken yet. */
    lemma OldestAt(k: nat)
      requires Valid() && k < Used() && tail + k < size
      ensures buffer[tail + k] == accepted[|taken| + k]
    {
      assert Contents()[k] == buffer[tail + k];
    }

    /** `memcpy` of the n oldest bytes, interrupted before each byte. */
    method CopyOutInterrupted(to: array<Byte>, at: nat, n: nat, irq: nat -> seq<seq<Byte>>)
      requires Valid() && n <= Used() && tail + n <= size && at + n <= to.Length && to != buffer
      modifies this`head, this`accepted, buffer, to
      ensures Valid() && old(accepted) <= accepted
      ensures forall j :: 0 <= j < to.Length && !(at <= j < at + n) ==> to[j] == old(to[j])
      ensures to[at..at + n] == accepted[|taken|..|taken| + n]
    {
      hide Pow2, Window, Slot, Distance;
      ghost var stream, first := accepted, |taken|;
      for k := 0 to n
        invariant Valid() && stream <= accepted && n <= Used() && |taken| == first
        invariant to[at..at + k] == stream[first..first + k]
        invariant forall j :: 0 <= j < to.Length && !(at <= j < at + n) ==> to[j] == old(to[j])
      {
        Interrupt(irq(k));
        OldestAt(k);
        ghost var copied := to[at..at + k];
        to[at + k] := buffer[tail + k];
        assert to[at..at + k] == copied;
        SliceSnoc(to[..], at, k);
        SliceSnoc(stream, first, k);
      }
      PrefixSlice(stream, accepted, first, n);
    }

    /** One of the two rounds of get: find the contiguous part, copy it, drop it. */
    method RoundInterrupted(to: array<Byte>, at: nat, want: nat, irq: nat -> nat -> seq<seq<Byte>>) returns (n: nat)
      requires Valid() && want <= Used() && at + want <= to.Length && to != buffer
      modifies this`head, this`tail, this`accepted, this`taken, buffer, to
      ensures Valid() && old(accepted) <= accepted && want - n <= Used()
      ensures n == Min(want, size - old(tail)) && (n < want ==> tail == 0)
      ensures taken == old(taken) + to[at..at + n] && to[..at] == old(to[..at])
      ensures forall j :: 0 <= j < to.Length && !(at <= j < at + n) ==> to[j] == old(to[j])
    {
      hide Pow2, Window, Slot, Distance;
      var from, contiguous := ReadPointerInterrupted(want, irq(0));
      if contiguous == 0 {
        return 0;
      }
      n := Min(contiguous, want);
      CopyOutInterrupted(to, at, n, irq(1));
      ghost var copied := accepted;
      ConsumeInterrupted(n, irq(2));
      Continues(old(taken), copied, accepted, n);
    }

    /** `get`, interrupted by whole puts at every access to a shared index: it returns exactly the next
        bytes of the stream, as many as asked for or as many as count found, and at least as many as
        there were at the start; nothing is lost, duplicated or overwritten. */
    method GetInterrupted(want: nat, to: array<Byte>, irq: nat -> nat -> nat -> seq<seq<Byte>>) returns (done: nat)
      requires Valid() && want <= to.Length && to != buffer
      modifies this`head, this`tail, this`accepted, this`taken, buffer, to
      ensures Valid() && old(accepted) <= accepted
      ensures old(Min(want, Used())) <= done <= want
      ensures taken == old(taken) + to[..done]
      ensures accepted == old(accepted) ==> done == old(Min(want, Used()))
      ensures forall j :: done <= j < to.Length ==> to[j] == old(to[j])
    {
      hide Pow2, Window, Slot, Distance;
      var c := CountInterrupted(irq(0)(0));
      var size := Min(want, c);
      done := RoundInterrupted(to, 0, size, irq(1));
      assert to[0..done] == to[..done];
      if done < size {
        var n := RoundInterrupted(to, done, size - done, irq(2));
        TakenJoins(old(taken), to[..], done, n);
        done := done + n;
      }
    }
  }

  /** Two rounds of taking into one buffer. */
  lemma TakenJoins(taken: seq<Byte>, to: seq<Byte>, n: nat, m: nat)
    requires n + m <= |to|
    ensures (taken + to[..n]) + to[n..n + m] == taken + to[..n + m]
  {
  }

  /** If the consumer took n bytes of a stream that has only grown, they are the next n of it. */
  lemma Continues(taken: seq<Byte>, copied: seq<Byte>, accepted: seq<Byte>, n: nat)
    requires taken <= copied <= accepted && |taken| + n <= |copied|
    ensures accepted[..|taken| + n] == taken + copied[|taken|..|taken| + n]
  {
  }
}
