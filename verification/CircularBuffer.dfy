/** The circular buffers of CMSIS-DSP: block writes and reads at a fixed increment.

    A position is moved by adding the increment and subtracting the length at most once. */
module CircularBuffer {
  import opened Arithmetic
  import opened FixedPoint

  function Index(start: int, inc: int, k: nat): int {
    start + k * inc
  }

  /** The position of the k-th access. */
  function Pos(len: int, offset: int, inc: int, k: nat): int
    requires len > 0
  {
    Index(offset, inc, k) % len
  }

  /** What the loop keeps in `wOffset` or `rOffset`. */
  function Moved(len: int, offset: int, inc: int): int {
    if offset + inc >= len then offset + inc - len else offset + inc
  }

  function MovedTimes(len: int, offset: int, inc: int, k: nat): int {
    if k == 0 then offset else Moved(len, MovedTimes(len, offset, inc, k - 1), inc)
  }

  lemma ModShift(x: int, inc: int, len: int)
    requires 0 < len && 0 <= inc <= len
    ensures (x + inc) % len == Moved(len, x % len, inc)
  {
    var q, r := x / len, x % len;
    assert x == len * q + r;
    if r + inc >= len {
      assert x + inc == len * (q + 1) + (r + inc - len) by { Distribute(len, q, 1); }
      if r + inc - len < len {
        UniqueDivision(x + inc, len, q + 1, r + inc - len);
      }
    } else {
      UniqueDivision(x + inc, len, q, r + inc);
    }
  }

  /** With 0 <= offset < len and 0 <= inc <= len the loop's position is offset + k * inc modulo the length. */
  lemma {:induction false} MovedIsPos(len: int, offset: int, inc: int, k: nat)
    requires 0 <= offset < len && 0 <= inc <= len
    ensures MovedTimes(len, offset, inc, k) == Pos(len, offset, inc, k) == (offset + k * inc) % len
    ensures 0 <= MovedTimes(len, offset, inc, k) < len
  {
    if k == 0 {
      UniqueDivision(offset, len, 0, offset);
    } else {
      MovedIsPos(len, offset, inc, k - 1);
      DistributeLeft(k - 1, 1, inc);
      ModShift(Index(offset, inc, k - 1), inc, len);
    }
  }

  ghost predicate InBuffer(len: int, offset: int, inc: int, k: nat) {
    0 <= MovedTimes(len, offset, inc, k) < len
  }

  /** Those bounds are exact: a negative increment, or one above the length, leaves the buffer after some number of
      accesses. The comment in the source speaks of negative values; the code handles only the upper end. */
  lemma StaysInBufferIff(len: int, offset: int, inc: int)
    requires len > 0
    ensures (forall k: nat :: InBuffer(len, offset, inc, k)) <==> 0 <= offset < len && 0 <= inc <= len
  {
    if 0 <= offset < len && 0 <= inc <= len {
      forall k: nat ensures InBuffer(len, offset, inc, k) { MovedIsPos(len, offset, inc, k); }
    } else {
      assert MovedTimes(len, offset, inc, 0) == offset;
      if 0 <= offset < len {
        var k := EscapesAt(len, offset, inc, 0, len);
        assert !InBuffer(len, offset, inc, k);
      } else {
        assert !InBuffer(len, offset, inc, 0);
      }
    }
  }

  /** Searches forward from access k; the position moves at least one step in a fixed direction each time. */
  lemma {:induction false} EscapesAt(len: int, offset: int, inc: int, k: nat, room: nat) returns (at: nat)
    requires len > 0 && (inc < 0 || inc > len)
    requires InBuffer(len, offset, inc, k)
    requires var p := MovedTimes(len, offset, inc, k); room > (if inc < 0 then p else len - 1 - p)
    ensures !InBuffer(len, offset, inc, at)
    decreases room
  {
    if InBuffer(len, offset, inc, k + 1) {
      at := EscapesAt(len, offset, inc, k + 1, room - 1);
    } else {
      at := k + 1;
    }
  }

  // ---------------------------------------------------------------- writing

  /** The buffer after the samples have been stored one after the other. */
  function Written<T>(buf: seq<T>, len: int, offset: int, inc: int, xs: seq<T>): (after: seq<T>)
    requires 0 < len <= |buf|
    ensures |after| == |buf|
    decreases |xs|
  {
    if xs == [] then buf
    else Written(buf, len, offset, inc, xs[..|xs| - 1])[Pos(len, offset, inc, |xs| - 1) := xs[|xs| - 1]]
  }

  lemma WrittenMore<T>(buf: seq<T>, len: int, offset: int, inc: int, xs: seq<T>, x: T)
    requires 0 < len <= |buf|
    ensures Written(buf, len, offset, inc, xs + [x])
            == Written(buf, len, offset, inc, xs)[Pos(len, offset, inc, |xs|) := x]
  {
    assert (xs + [x])[..|xs|] == xs;
  }

  /** Successive blocks behave like one: the offset carries everything over. */
  lemma {:induction false} WritesCompose<T>(buf: seq<T>, len: int, offset: int, inc: int, xs: seq<T>, ys: seq<T>)
    requires 0 < len <= |buf|
    ensures Written(Written(buf, len, offset, inc, xs), len, Pos(len, offset, inc, |xs|), inc, ys)
            == Written(buf, len, offset, inc, xs + ys)
    decreases |ys|
  {
    if ys == [] {
      assert xs + ys == xs;
    } else {
      var front, y := ys[..|ys| - 1], ys[|ys| - 1];
      WritesCompose(buf, len, offset, inc, xs, front);
      assert front + [y] == ys && (xs + front) + [y] == xs + ys;
      WrittenMore(buf, len, offset, inc, xs + front, y);
      PosCompose(len, offset, inc, |xs|, |front|);
    }
  }

  lemma PosCompose(len: int, offset: int, inc: int, m: nat, n: nat)
    requires len > 0
    ensures Pos(len, Pos(len, offset, inc, m), inc, n) == Pos(len, offset, inc, m + n)
  {
    var x := Index(offset, inc, m);
    DistributeLeft(m, n, inc);
    var r := x % len + n * inc;
    assert x == len * (x / len) + x % len && r == len * (r / len) + r % len;
    assert x + n * inc == len * (x / len + r / len) + r % len by { Distribute(len, x / len, r / len); }
    UniqueDivision(x + n * inc, len, x / len + r / len, r % len);
  }

  /** Positions less than a buffer length apart differ. */
  lemma PosDistinct(len: int, offset: int, i: nat, j: nat)
    requires 0 < len && i < j < i + len
    ensures Pos(len, offset, 1, i) != Pos(len, offset, 1, j)
  {
    StepsDistinct(len, offset, 1, i, j);
  }

  lemma StepsDistinct(len: int, offset: int, inc: int, i: nat, j: nat)
    requires 0 < len && i < j && 0 < (j - i) * inc < len
    ensures Pos(len, offset, inc, i) != Pos(len, offset, inc, j)
  {
    var x, y := offset + i * inc, offset + j * inc;
    assert Index(offset, inc, i) == x && Index(offset, inc, j) == y;
    DistributeLeft(i, j - i, inc);
    if x % len == y % len {
      var d := y / len - x / len;
      assert y - x == len * d by { Distribute(len, x / len, d); }
      if d >= 1 { ScaleBounds(len, 1, d, d); }
      if d <= 0 { ScaleBounds(len, d, d, 0); }
    }
  }

  /** A sliding window: after unit-increment writes of xs, in however many blocks, the buffer holds the last `len`
      samples in circular order, and every cell no sample went to is as before. */
  lemma {:induction false} SlidingWindow<T>(buf: seq<T>, len: int, offset: int, xs: seq<T>)
    requires 0 < len <= |buf|
    ensures forall i: nat :: |xs| - len <= i < |xs| ==> Written(buf, len, offset, 1, xs)[Pos(len, offset, 1, i)] == xs[i]
    ensures forall p :: 0 <= p < |buf| && (forall i: nat :: i < |xs| ==> Pos(len, offset, 1, i) != p)
                        ==> Written(buf, len, offset, 1, xs)[p] == buf[p]
    decreases |xs|
  {
    if xs != [] {
      var front, n := xs[..|xs| - 1], |xs| - 1;
      SlidingWindow(buf, len, offset, front);
      var before, after := Written(buf, len, offset, 1, front), Written(buf, len, offset, 1, xs);
      forall i: nat | |xs| - len <= i < |xs|
        ensures after[Pos(len, offset, 1, i)] == xs[i]
      {
        if i < n {
          PosDistinct(len, offset, i, n);
          assert before[Pos(len, offset, 1, i)] == front[i];
        }
      }
      forall p | 0 <= p < |buf| && (forall i: nat :: i < |xs| ==> Pos(len, offset, 1, i) != p)
        ensures after[p] == buf[p]
      {
        assert Pos(len, offset, 1, n) != p;
      }
    }
  }

  /** With any increment a cell holds the last sample that went to it, and a cell none went to is as before. */
  lemma {:induction false} LastSampleWins<T>(buf: seq<T>, len: int, offset: int, inc: int, xs: seq<T>, p: int)
    requires 0 < len <= |buf| && 0 <= p < |buf|
    ensures forall i: nat :: i < |xs| && Pos(len, offset, inc, i) == p
                             && (forall j: nat :: i < j < |xs| ==> Pos(len, offset, inc, j) != p)
                             ==> Written(buf, len, offset, inc, xs)[p] == xs[i]
    ensures (forall i: nat :: i < |xs| ==> Pos(len, offset, inc, i) != p) ==> Written(buf, len, offset, inc, xs)[p] == buf[p]
    decreases |xs|
  {
    hide Pos;
    if xs != [] {
      LastSampleWins(buf, len, offset, inc, xs[..|xs| - 1], p);
      PosInside(len, offset, inc, |xs| - 1);
    }
  }

  lemma PosInside(len: int, offset: int, inc: int, k: nat)
    requires len > 0
    ensures 0 <= Pos(len, offset, inc, k) < len
  {}

  // ---------------------------------------------------------------- reading

  function ReadOut<T>(buf: seq<T>, len: int, offset: int, inc: int, n: nat): (xs: seq<T>)
    requires 0 < len <= |buf|
    ensures |xs| == n
    ensures forall k: nat :: k < n ==> xs[k] == buf[Pos(len, offset, inc, k)]
  {
    if n == 0 then [] else ReadOut(buf, len, offset, inc, n - 1) + [buf[Pos(len, offset, inc, n - 1)]]
  }

  /** A block of at most the buffer length, written with unit increment, reads back from the same offset. */
  lemma WriteThenRead<T>(buf: seq<T>, len: int, offset: int, xs: seq<T>)
    requires 0 < len <= |buf| && |xs| <= len
    ensures ReadOut(Written(buf, len, offset, 1, xs), len, offset, 1, |xs|) == xs
  {
    SlidingWindow(buf, len, offset, xs);
  }

  // ---------------------------------------------------------------- the routines

  /** The samples a source pointer visits. */
  function Samples<T>(src: seq<T>, start: int, inc: int, n: nat): (xs: seq<T>)
    requires Visits(|src|, start, inc, n)
    ensures |xs| == n
  {
    if n == 0 then [] else Samples(src, start, inc, n - 1) + [src[Index(start, inc, n - 1)]]
  }

  ghost predicate Visits(size: int, start: int, inc: int, n: nat) {
    forall k: nat :: k < n ==> 0 <= Index(start, inc, k) < size
  }

  /** One round of the write loop, on values. */
  lemma WriteRound<T>(was: seq<T>, len: int, offset: int, inc: int, src: seq<T>, start: int, srcInc: int, n: nat, done: nat)
    requires 0 <= offset < len <= |was| && 0 < inc <= len && Visits(|src|, start, srcInc, n) && done < n
    ensures Visits(|src|, start, srcInc, done) && Visits(|src|, start, srcInc, done + 1)
    ensures 0 <= Index(start, srcInc, done) < |src| && 0 <= MovedTimes(len, offset, inc, done) < len
    ensures Written(was, len, offset, inc, Samples(src, start, srcInc, done + 1))
            == Written(was, len, offset, inc, Samples(src, start, srcInc, done))
               [MovedTimes(len, offset, inc, done) := src[Index(start, srcInc, done)]]
    ensures Index(start, srcInc, done + 1) == Index(start, srcInc, done) + srcInc
    ensures MovedTimes(len, offset, inc, done + 1) == Moved(len, MovedTimes(len, offset, inc, done), inc)
  {
    hide Written;
    MovedIsPos(len, offset, inc, done);
    DistributeLeft(done, 1, srcInc);
    assert Index(start, srcInc, done) == Index(start, srcInc, done);
    WrittenMore(was, len, offset, inc, Samples(src, start, srcInc, done), src[Index(start, srcInc, done)]);
  }

  lemma WriteStart<T>(was: seq<T>, len: int, offset: int, inc: int, src: seq<T>, start: int, srcInc: int)
    requires 0 < len <= |was|
    ensures Visits(|src|, start, srcInc, 0) && Written(was, len, offset, inc, Samples(src, start, srcInc, 0)) == was
    ensures Index(start, srcInc, 0) == start && MovedTimes(len, offset, inc, 0) == offset
  {}

  method CircularWrite<T>(circBuffer: array<T>, len: int, writeOffset: u16, bufferInc: int,
                          src: array<T>, start: int, srcInc: int, blockSize: nat) returns (newOffset: u16)
    requires 0 <= writeOffset < len <= circBuffer.Length && len <= TWO16 && 0 < bufferInc <= len
    requires src != circBuffer && Visits(src.Length, start, srcInc, blockSize)
    modifies circBuffer
    ensures circBuffer[..] == Written(old(circBuffer[..]), len, writeOffset, bufferInc,
                                      Samples(src[..], start, srcInc, blockSize))
    ensures newOffset == Pos(len, writeOffset, bufferInc, blockSize)
  {
    hide Written, Samples, Pos, Index, Visits, MovedTimes;
    var i, wOffset, from := blockSize, writeOffset as int, start;
    ghost var done: nat := 0;
    ghost var was, all := circBuffer[..], src[..];
    WriteStart(was, len, writeOffset, bufferInc, all, start, srcInc);
    while i > 0
      invariant 0 <= i <= blockSize && done == blockSize - i
      invariant wOffset == MovedTimes(len, writeOffset, bufferInc, done)
      invariant from == Index(start, srcInc, done)
      invariant src[..] == all && Visits(|all|, start, srcInc, done)
      invariant circBuffer[..] == Written(was, len, writeOffset, bufferInc, Samples(all, start, srcInc, done))
    {
      WriteRound(was, len, writeOffset, bufferInc, all, start, srcInc, blockSize, done);
      circBuffer[wOffset] := src[from];
      from := from + srcInc;
      wOffset := wOffset + bufferInc;
      if wOffset >= len {
        wOffset := wOffset - len;
      }
      i := i - 1;
      done := done + 1;
    }
    MovedIsPos(len, writeOffset, bufferInc, blockSize);
    newOffset := wOffset % TWO16;
    UniqueDivision(wOffset, TWO16, 0, wOffset);
  }

  /** The destination pointer of a read: it returns to the base only when a step lands exactly on the end. */
  datatype Destination = Destination(base: int, end: int, start: int, inc: int)

  function DstIndex(d: Destination, k: nat): int {
    if k == 0 then d.start
    else
      var next := DstIndex(d, k - 1) + d.inc;
      if next == d.end then d.base else next
  }

  ghost predicate Fits(size: int, d: Destination, n: nat) {
    forall k: nat :: k < n ==> 0 <= DstIndex(d, k) < size
  }

  /** The step lands on the end sooner or later: it is positive and divides the buffer and the way to its end. */
  ghost predicate StepsFit(d: Destination) {
    && 0 < d.inc && d.base <= d.start < d.end
    && (d.start - d.base) % d.inc == 0 && (d.end - d.base) % d.inc == 0
  }

  /** Then the destination is itself a circular buffer over base..end. */
  lemma {:induction false} DestinationWraps(d: Destination, k: nat)
    requires StepsFit(d)
    ensures DstIndex(d, k) == d.base + Pos(d.end - d.base, d.start - d.base, d.inc, k)
    ensures d.base <= DstIndex(d, k) < d.end && (DstIndex(d, k) - d.base) % d.inc == 0
  {
    hide Pos;
    var len, inc := d.end - d.base, d.inc;
    MultipleGap(0, len, inc);
    MovedIsPos(len, d.start - d.base, inc, k);
    if k > 0 {
      DestinationWraps(d, k - 1);
      MovedIsPos(len, d.start - d.base, inc, k - 1);
      MultipleGap(DstIndex(d, k - 1) - d.base, len, inc);
    }
  }

  /** Multiples of a step are a step apart. */
  lemma MultipleGap(a: int, b: int, inc: int)
    requires 0 < inc && a % inc == 0 && b % inc == 0 && a < b
    ensures a + inc <= b && (a + inc) % inc == 0 && 0 % inc == 0
  {
    var m, n := a / inc, b / inc;
    assert a == inc * m && b == inc * n;
    Distribute(inc, m, 1);
    UniqueDivision(a + inc, inc, m + 1, 0);
    UniqueDivision(0, inc, 0, 0);
    if n <= m {
      ScaleBounds(inc, n, m, m);
    } else {
      ScaleBounds(inc, m + 1, n, n);
    }
  }

  function Stored<T>(dst: seq<T>, d: Destination, xs: seq<T>): (after: seq<T>)
    requires Fits(|dst|, d, |xs|)
    ensures |after| == |dst|
    decreases |xs|
  {
    if xs == [] then dst
    else Stored(dst, d, xs[..|xs| - 1])[DstIndex(d, |xs| - 1) := xs[|xs| - 1]]
  }

  lemma StoredMore<T>(dst: seq<T>, d: Destination, xs: seq<T>, x: T)
    requires Fits(|dst|, d, |xs| + 1)
    ensures Stored(dst, d, xs + [x]) == Stored(dst, d, xs)[DstIndex(d, |xs|) := x]
  {
    assert (xs + [x])[..|xs|] == xs;
  }

  /** A block no longer than the destination lands in it unchanged, a step apart, starting at the pointer. */
  lemma {:induction false} BlockLands<T>(dst: seq<T>, d: Destination, xs: seq<T>)
    requires StepsFit(d) && 0 <= d.base && d.end <= |dst| && |xs| * d.inc <= d.end - d.base
    requires Fits(|dst|, d, |xs|)
    ensures forall i: nat :: i < |xs| ==> Stored(dst, d, xs)[DstIndex(d, i)] == xs[i]
    decreases |xs|
  {
    if xs != [] {
      hide Pos, DstIndex, StepsFit;
      var front, n := xs[..|xs| - 1], |xs| - 1;
      BlockFits(d, n, 0);
      BlockLands(dst, d, front);
      DestinationWraps(d, n);
      forall i: nat | i < |xs|
        ensures Stored(dst, d, xs)[DstIndex(d, i)] == xs[i]
      {
        DestinationWraps(d, i);
        if i < n {
          BlockFits(d, n, i);
          StepsDistinct(d.end - d.base, d.start - d.base, d.inc, i, n);
          assert Stored(dst, d, front)[DstIndex(d, i)] == front[i];
        }
      }
    }
  }

  lemma BlockFits(d: Destination, n: nat, i: nat)
    requires StepsFit(d) && (n + 1) * d.inc <= d.end - d.base && i <= n
    ensures n * d.inc <= d.end - d.base
    ensures i < n ==> 0 < (n - i) * d.inc < d.end - d.base
  {
    DistributeLeft(n, 1, d.inc);
    DistributeLeft(n - i, i, d.inc);
    MulMono(0, i, d.inc, d.inc);
    if i < n { MulMono(1, n - i, d.inc, d.inc); }
  }

  /** One round of the read loop, on values. */
  lemma ReadRound<T>(buf: seq<T>, len: int, offset: int, inc: int, was: seq<T>, d: Destination, n: nat, done: nat)
    requires 0 <= offset < len <= |buf| && 0 < inc <= len && Fits(|was|, d, n) && done < n
    ensures Fits(|was|, d, done) && Fits(|was|, d, done + 1)
    ensures 0 <= DstIndex(d, done) < |was| && 0 <= MovedTimes(len, offset, inc, done) < len
    ensures Stored(was, d, ReadOut(buf, len, offset, inc, done + 1))
            == Stored(was, d, ReadOut(buf, len, offset, inc, done))
               [DstIndex(d, done) := buf[MovedTimes(len, offset, inc, done)]]
    ensures DstIndex(d, done + 1) == if DstIndex(d, done) + d.inc == d.end then d.base else DstIndex(d, done) + d.inc
    ensures MovedTimes(len, offset, inc, done + 1) == Moved(len, MovedTimes(len, offset, inc, done), inc)
  {
    hide Stored;
    MovedIsPos(len, offset, inc, done);
    StoredMore(was, d, ReadOut(buf, len, offset, inc, done), buf[Pos(len, offset, inc, done)]);
  }

  method CircularRead<T>(circBuffer: array<T>, len: int, readOffset: int, bufferInc: int,
                         dst: array<T>, start: int, dstBase: int, dstLength: int, dstInc: int, blockSize: nat)
    returns (newOffset: int)
    requires 0 <= readOffset < len <= circBuffer.Length && 0 < bufferInc <= len
    requires dst != circBuffer
    requires Fits(dst.Length, Destination(dstBase, dstBase + dstLength, start, dstInc), blockSize)
    modifies dst
    ensures dst[..] == Stored(old(dst[..]), Destination(dstBase, dstBase + dstLength, start, dstInc),
                              ReadOut(circBuffer[..], len, readOffset, bufferInc, blockSize))
    ensures newOffset == Pos(len, readOffset, bufferInc, blockSize)
  {
    hide Stored, ReadOut, Pos, Index, Fits, DstIndex, MovedTimes;
    var i, rOffset, to, dstEnd := blockSize, readOffset, start, dstBase + dstLength;
    ghost var d := Destination(dstBase, dstEnd, start, dstInc);
    ghost var done: nat := 0;
    ghost var was, all := dst[..], circBuffer[..];
    ReadStart(all, len, readOffset, bufferInc, was, d);
    while i > 0
      invariant 0 <= i <= blockSize && done == blockSize - i
      invariant rOffset == MovedTimes(len, readOffset, bufferInc, done)
      invariant to == DstIndex(d, done)
      invariant circBuffer[..] == all && Fits(|was|, d, done)
      invariant dst[..] == Stored(was, d, ReadOut(all, len, readOffset, bufferInc, done))
    {
      ReadRound(all, len, readOffset, bufferInc, was, d, blockSize, done);
      dst[to] := circBuffer[rOffset];
      to := to + dstInc;
      if to == dstEnd {
        to := dstBase;
      }
      rOffset := rOffset + bufferInc;
      if rOffset >= len {
        rOffset := rOffset - len;
      }
      i := i - 1;
      done := done + 1;
    }
    MovedIsPos(len, readOffset, bufferInc, blockSize);
    newOffset := rOffset;
  }

  lemma ReadStart<T>(buf: seq<T>, len: int, offset: int, inc: int, was: seq<T>, d: Destination)
    requires 0 < len <= |buf|
    ensures Fits(|was|, d, 0) && Stored(was, d, ReadOut(buf, len, offset, inc, 0)) == was
    ensures DstIndex(d, 0) == d.start && MovedTimes(len, offset, inc, 0) == offset
  {}

  /** A unit-increment write followed by a read of the same block: the samples arrive in the destination. */
  method WriteAndReadBack<T>(circBuffer: array<T>, len: int, offset: u16, src: array<T>, dst: array<T>, blockSize: nat)
    returns (next: u16)
    requires 0 <= offset < len <= circBuffer.Length && len <= TWO16
    requires src != circBuffer && dst != circBuffer && src != dst
    requires blockSize <= len && 0 < blockSize <= src.Length && blockSize <= dst.Length
    modifies circBuffer, dst
    ensures dst[..blockSize] == src[..blockSize]
    ensures next == Pos(len, offset, 1, blockSize)
  {
    hide Written, Stored, ReadOut, Samples, Pos, Index, Visits, Fits;
    ghost var all := src[..];
    SamplesAreABlock(all, blockSize);
    next := CircularWrite(circBuffer, len, offset, 1, src, 0, 1, blockSize);
    WriteThenRead(old(circBuffer[..]), len, offset, all[..blockSize]);
    BlockFills(dst[..], all[..blockSize]);
    ghost var was := dst[..];
    var _ := CircularRead(circBuffer, len, offset, 1, dst, 0, 0, blockSize, 1, blockSize);
    assert dst[..] == Stored(was, Destination(0, blockSize, 0, 1), all[..blockSize]);
    assert dst[..blockSize] == dst[..][..blockSize];
  }

  lemma BlockIndex(n: nat, k: nat)
    requires k < n
    ensures DstIndex(Destination(0, n, 0, 1), k) == k
  {
    hide DstIndex;
    assert StepsFit(Destination(0, n, 0, 1));
    DestinationWraps(Destination(0, n, 0, 1), k);
    UniqueDivision(Index(0, 1, k), n, 0, k);
  }

  /** A block written from the base of a destination of its own length. */
  lemma BlockFills<T>(dst: seq<T>, xs: seq<T>)
    requires 0 < |xs| <= |dst|
    ensures Fits(|dst|, Destination(0, |xs|, 0, 1), |xs|)
    ensures Stored(dst, Destination(0, |xs|, 0, 1), xs)[..|xs|] == xs
  {
    hide Stored, DstIndex, Pos, Index;
    var d := Destination(0, |xs|, 0, 1);
    forall k: nat | k < |xs| ensures DstIndex(d, k) == k { BlockIndex(|xs|, k); }
    assert Fits(|dst|, d, |xs|) && StepsFit(d);
    BlockLands(dst, d, xs);
    var after := Stored(dst, d, xs);
    forall k: nat | k < |xs| ensures after[k] == xs[k] {
      assert after[DstIndex(d, k)] == xs[k];
    }
    PrefixOf(after, xs);
  }

  lemma PrefixOf<T>(whole: seq<T>, xs: seq<T>)
    requires |xs| <= |whole| && forall k: nat :: k < |xs| ==> whole[k] == xs[k]
    ensures whole[..|xs|] == xs
  {}

  lemma {:induction false} SamplesAreABlock<T>(src: seq<T>, n: nat)
    requires n <= |src|
    ensures Visits(|src|, 0, 1, n) && Samples(src, 0, 1, n) == src[..n]
  {
    forall k: nat | k < n ensures 0 <= Index(0, 1, k) == k < |src| {}
    if n > 0 {
      SamplesAreABlock(src, n - 1);
    }
  }
}
