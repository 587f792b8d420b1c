/**
 * The kfifo byte ring buffer: a storage area whose size is a power of two and
 * two free-running uint32_t cursors `in` and `out`. The stored length is
 * `in - out` modulo 2^32 and a cursor's physical slot is `cursor & (size - 1)`.
 */
module ZKfifo {
  import opened Machine
  import opened ZTool

  // ---------------------------------------------------------------------------
  // The ring as a value
  // ---------------------------------------------------------------------------

  /** The len bytes of the first size slots of b read as a ring from cursor start. */
  function RingView(b: seq<byte>, size: nat, start: int, len: nat): (r: seq<byte>)
    requires len <= size <= |b|
    ensures |r| == len
  {
    seq(len, i requires 0 <= i < len => b[(start + i) % size])
  }

  /** b with count bytes of src, starting at src position from, copied over it at position at. */
  function Overwrite(b: seq<byte>, at: nat, src: seq<byte>, from: nat, count: nat): (r: seq<byte>)
    requires count == 0 || from + count <= |src|
    ensures |r| == |b|
  {
    seq(|b|, p requires 0 <= p < |b| => if at <= p < at + count then src[from + p - at] else b[p])
  }

  /** Slot arithmetic on a free-running cursor survives the 32-bit wrap of its distance. */
  lemma CursorsAgree(c: int, o: int, size: int)
    requires IsPowerOfTwo(size) && size <= U32_LIMIT
    ensures (o + Wrap(c - o)) % size == c % size
  {
    var k := PowerOfTwoDividesLimit(size);
    var q := (c - o) / U32_LIMIT;
    assert o + Wrap(c - o) == c - q * U32_LIMIT;
    assert c - q * U32_LIMIT == c + (-q * k) * size;
    ModAddMultiple(c, -q * k, size);
  }

  /** Wrap(x) and x are interchangeable inside a difference that is taken modulo 2^32. */
  lemma WrapCongruent(x: int, y: int)
    ensures Wrap(Wrap(x) - y) == Wrap(x - y)
    ensures Wrap(y - Wrap(x)) == Wrap(y - x)
  {
    var q := x / U32_LIMIT;
    assert Wrap(x) - y == (x - y) + (-q) * U32_LIMIT;
    ModAddMultiple(x - y, -q, U32_LIMIT);
    assert y - Wrap(x) == (y - x) + q * U32_LIMIT;
    ModAddMultiple(y - x, q, U32_LIMIT);
  }

  /** Moving a cursor by t moves the 32-bit distance by t while it stays in range. */
  lemma WrapShift(x: int, t: int)
    requires 0 <= Wrap(x) + t < U32_LIMIT
    ensures Wrap(x + t) == Wrap(x) + t
  {
    var q := x / U32_LIMIT;
    DivModUnique(x + t, U32_LIMIT, q, Wrap(x) + t);
  }

  /** Advancing `in` by n lengthens the stored data by n. */
  lemma AdvanceIn(c: int, o: int, n: int)
    requires n >= 0 && Wrap(c - o) + n < U32_LIMIT
    ensures Wrap(Wrap(c + n) - o) == Wrap(c - o) + n
  {
    WrapCongruent(c + n, o);
    WrapShift(c - o, n);
  }

  /** Advancing `out` by n shortens the stored data by n. */
  lemma AdvanceOut(c: int, o: int, n: int)
    requires 0 <= n <= Wrap(c - o)
    ensures Wrap(c - Wrap(o + n)) == Wrap(c - o) - n
  {
    WrapCongruent(o + n, c);
    WrapShift(c - o, -n);
  }

  /** The slot of one of the first d stored bytes is not in the tail segment that `in` writes at slot 0. */
  lemma OldSlotNotInTail(size: nat, o: int, d: nat, n: nat, off: nat, l: nat, i: nat)
    requires 0 < size && d + n <= size && i < d
    requires off == (o + d) % size && l == Min(n, size - off)
    ensures !((o + i) % size < n - l)
  {
    var s := (o + i) % size;
    if s < n - l {
      assert l == size - off;
      var j := l + s;
      assert j < n && off + j == size + s;
      RingSlot(o + d, j, size);
      assert (o + d + j) % size == s;
      ModDistinct(o + i, o + d + j, size);
      assert false;
    }
  }

  /** The slot of one of the first d stored bytes is not in the head segment that `in` writes. */
  lemma OldSlotNotInHead(size: nat, o: int, d: nat, n: nat, off: nat, l: nat, i: nat)
    requires 0 < size && d + n <= size && i < d
    requires off == (o + d) % size && l == Min(n, size - off)
    ensures !(off <= (o + i) % size < off + l)
  {
    var s := (o + i) % size;
    if off <= s < off + l {
      var j := s - off;
      assert j < n && off + j < size;
      RingSlot(o + d, j, size);
      assert (o + d + j) % size == s;
      ModDistinct(o + i, o + d + j, size);
      assert false;
    }
  }

  /** The j-th byte `in` writes goes to the head segment when j < l and to the tail otherwise. */
  lemma NewSlotAt(size: nat, o: int, d: nat, n: nat, off: nat, l: nat, j: nat)
    requires 0 < size && d + n <= size && j < n
    requires off == (o + d) % size && l == Min(n, size - off)
    ensures (o + (d + j)) % size == if j < l then off + j else j - l
    ensures j < l ==> off + j < size
    ensures l <= j ==> j - l < n - l
  {
    RingSlot(o + d, j, size);
  }

  /**
   * The two copies of `in` (head segment at the masked offset, tail at slot 0)
   * append the written bytes to the bytes read from the ring.
   */
  lemma RingAppend(P: seq<byte>, B1: seq<byte>, B: seq<byte>, data: seq<byte>,
                   size: nat, o: int, d: nat, n: nat, off: nat, l: nat)
    requires 0 < size <= |P|
    requires d + n <= size && n <= |data|
    requires off == (o + d) % size && l == Min(n, size - off)
    requires B1 == Overwrite(P, off, data, 0, l)
    requires B == Overwrite(B1, 0, data, l, n - l)
    ensures RingView(B, size, o, d + n) == RingView(P, size, o, d) + data[..n]
  {
    var after, before := RingView(B, size, o, d + n), RingView(P, size, o, d) + data[..n];
    forall k | 0 <= k < d + n
      ensures after[k] == before[k]
    {
      if k < d {
        OldSlotNotInTail(size, o, d, n, off, l, k);
        OldSlotNotInHead(size, o, d, n, off, l, k);
        assert after[k] == B[(o + k) % size] == P[(o + k) % size];
      } else {
        NewSlotAt(size, o, d, n, off, l, k - d);
        assert after[k] == B[(o + (d + (k - d))) % size];
      }
    }
  }

  /**
   * The two copies of `out` (head segment from the masked offset, tail from
   * slot 0) deliver the oldest n stored bytes in order.
   */
  lemma RingRead(P: seq<byte>, T: seq<byte>, T0: seq<byte>, T1: seq<byte>, size: nat, o: int, d: nat, n: nat, off: nat, l: nat)
    requires 0 < size <= |P| && n <= d <= size
    requires off == o % size && l == Min(n, size - off)
    requires |T| >= n
    requires T0 == Overwrite(T, 0, P, off, l)
    requires T1 == Overwrite(T0, l, P, 0, n - l)
    ensures T1[..n] == RingView(P, size, o, d)[..n]
    ensures T1[n..] == T[n..]
  {
    forall k | 0 <= k < n
      ensures T1[k] == RingView(P, size, o, d)[k]
    {
      RingSlot(o, k, size);
    }
    forall k | n <= k < |T1|
      ensures T1[k] == T[k]
    {
    }
  }

  /** Moving `out` forward by n drops the first n bytes of the view. */
  lemma RingAdvance(P: seq<byte>, size: nat, o: int, d: nat, n: nat)
    requires IsPowerOfTwo(size) && size <= |P| && size <= U32_LIMIT
    requires n <= d <= size
    ensures RingView(P, size, Wrap(o + n), d - n) == RingView(P, size, o, d)[n..]
  {
    var after, before := RingView(P, size, Wrap(o + n), d - n), RingView(P, size, o, d)[n..];
    forall k | 0 <= k < d - n
      ensures after[k] == before[k]
    {
      WrapKeepsRemainder(o + n, k, size);
      assert after[k] == P[(Wrap(o + n) + k) % size];
      assert before[k] == P[(o + (n + k)) % size];
    }
  }

  // ---------------------------------------------------------------------------
  // memcpy
  // ---------------------------------------------------------------------------

  /**
   * memcpy(dst + dstOff, src + srcOff, count), where src is the source's bytes;
   * the source and destination never overlap here.
   */
  method Memcpy(dst: array?<byte>, dstOff: nat, src: seq<byte>, srcOff: nat, count: nat)
    requires count > 0 ==> dst != null && dstOff + count <= dst.Length && srcOff + count <= |src|
    modifies dst
    ensures dst != null ==> dst[..] == Overwrite(old(dst[..]), dstOff, src, srcOff, count)
    ensures dst != null && count == 0 ==> dst[..] == old(dst[..])
  {
    var k := 0;
    while k < count
      invariant 0 <= k <= count
      invariant dst != null ==> forall p :: 0 <= p < dst.Length ==>
        dst[p] == if dstOff <= p < dstOff + k then src[srcOff + p - dstOff] else old(dst[p])
    {
      dst[dstOff + k] := src[srcOff + k];
      k := k + 1;
    }
  }

  // ---------------------------------------------------------------------------
  // struct z_kfifo_struct and its operations
  // ---------------------------------------------------------------------------

  /** The allocation size chosen by z_kfifo_malloc: a size that is not a power of two is rounded up. */
  function AllocSize(size: u32): (r: u32)
    ensures r == 0 || IsPowerOfTwo(r)
    ensures size == 0 || IsPowerOfTwo(size) ==> r == size
    ensures 0 < size <= 0x8000_0000 ==> IsPowerOfTwo(r) && size <= r < 2 * size
    ensures size > 0x8000_0000 && !IsPowerOfTwo(size) ==> r == 0
  {
    MaskOfPredecessor(size);
    if And(size, Wrap(size - 1)) != 0 then RoundupPowOfTwo(size) else size
  }

  /** `size & (size - 1)` on a uint32_t is zero exactly for 0 and the powers of two. */
  lemma MaskOfPredecessor(size: u32)
    ensures And(size, Wrap(size - 1)) == 0 <==> size == 0 || IsPowerOfTwo(size)
  {
    if size == 0 {
      ZeroAnd(Wrap(size - 1));
    } else {
      PowerOfTwoByMask(size);
    }
  }

  /** The masked offset `c & (size - 1)` of a cursor is its slot, the slot just after the stored bytes for `in`. */
  lemma MaskedOffset(c: u32, o: u32, size: u32)
    requires IsPowerOfTwo(size)
    ensures And(c, Wrap(size - 1)) == c % size == (o + Wrap(c - o)) % size
    ensures Wrap(size - And(c, Wrap(size - 1))) == size - And(c, Wrap(size - 1))
  {
    WrapInRange(size - 1);
    MaskIsMod(c, size);
    CursorsAgree(c, o, size);
    WrapInRange(size - c % size);
  }

  /**
   * The two copies of z_kfifo_in as one plan: with off the masked offset of
   * `in` and l the bytes that fit before the end of the storage, writing the
   * head of data at off and the rest at slot 0 appends n bytes to the ring.
   */
  lemma CopyInPlan(P: seq<byte>, data: seq<byte>, size: u32, o: u32, c: u32, n: nat)
    requires IsPowerOfTwo(size) && size <= |P| && Wrap(c - o) + n <= size && n <= |data|
    ensures var off := And(c, Wrap(size - 1));
            var l := Min(n, Wrap(size - off));
            off + l <= |P| && n - l <= |P| &&
            RingView(Overwrite(Overwrite(P, off, data, 0, l), 0, data, l, n - l), size, o, Wrap(c - o) + n)
              == RingView(P, size, o, Wrap(c - o)) + data[..n]
  {
    var d := Wrap(c - o);
    var off := And(c, Wrap(size - 1));
    var l := Min(n, Wrap(size - off));
    assert 0 < size && off == (o + d) % size && l == Min(n, size - off) by {
      MaskedOffset(c, o, size);
    }
    var B1 := Overwrite(P, off, data, 0, l);
    RingAppend(P, B1, Overwrite(B1, 0, data, l, n - l), data, size, o, d, n, off, l);
  }

  class KFifo {
    var buffer: array?<byte>
    var size: u32
    var inCursor: u32
    var outCursor: u32

    /**
     * The size is 0 or a power of two, a non-empty ring has storage behind it,
     * and the cursors are never more than size apart.
     */
    ghost predicate Valid()
      reads this
    {
      (size == 0 || IsPowerOfTwo(size)) &&
      (size > 0 ==> buffer != null && size <= buffer.Length) &&
      Wrap(inCursor - outCursor) <= size
    }

    /** z_kfifo_data_len: the number of stored bytes. */
    function DataLen(): u32
      reads this
    {
      Wrap(inCursor - outCursor)
    }

    /** The stored length is the distance `out` has to go to reach `in`, across the 32-bit wrap. */
    lemma DataLenReachesIn()
      ensures Wrap(outCursor + DataLen()) == inCursor
    {
      Pow2Values();
      Pow2IsPowerOfTwo(32);
      CursorsAgree(inCursor, outCursor, U32_LIMIT);
      WrapInRange(inCursor);
    }

    /** z_kfifo_space: the number of free bytes. */
    function Space(): (r: u32)
      reads this
      ensures Valid() ==> r + DataLen() == size
    {
      Wrap(size - DataLen())
    }

    /** The stored bytes, oldest first. */
    ghost function Contents(): (s: seq<byte>)
      reads this, buffer
      requires Valid()
      ensures |s| == DataLen()
    {
      if size == 0 then [] else RingView(buffer[..], size, outCursor, DataLen())
    }

    /** A zero-initialised struct, as `memset(&fifo, 0, sizeof(fifo))` leaves it. */
    constructor ()
      ensures buffer == null && size == 0 && inCursor == 0 && outCursor == 0
      ensures Valid() && Contents() == []
    {
      buffer, size, inCursor, outCursor := null, 0, 0, 0;
    }

    /** z_kfifo_init: takes the storage and size as given and empties the ring. */
    method Init(storage: array?<byte>, capacity: u32)
      modifies this
      ensures buffer == storage && size == capacity && inCursor == 0 && outCursor == 0
      ensures (capacity == 0 || IsPowerOfTwo(capacity)) && (capacity > 0 ==> storage != null && capacity <= storage.Length)
              ==> Valid() && Contents() == []
    {
      buffer, size := storage, capacity;
      inCursor, outCursor := 0, 0;
    }

    /**
     * z_kfifo_malloc: allocOk says whether malloc returns storage. On success the
     * ring is empty with the rounded size; on failure it is reset to {NULL, 0, 0, 0}.
     */
    method Malloc(capacity: u32, allocOk: bool) returns (ret: i32)
      modifies this
      ensures Valid() && Contents() == [] && inCursor == 0 && outCursor == 0
      ensures allocOk ==> ret == 0 && buffer != null && fresh(buffer) && size == AllocSize(capacity) && buffer.Length == size
      ensures !allocOk ==> ret == -1 && buffer == null && size == 0
    {
      var rounded := capacity;
      if And(capacity, Wrap(capacity - 1)) != 0 {
        rounded := RoundupPowOfTwo(capacity);
      }
      assert rounded == AllocSize(capacity);
      if !allocOk {
        Init(null, 0);
        return -1;
      }
      var storage := new byte[rounded];
      Init(storage, rounded);
      return 0;
    }

    /** z_kfifo_free: releases the storage and resets every field, whatever the state was. */
    method Free()
      modifies this
      ensures buffer == null && size == 0 && inCursor == 0 && outCursor == 0
      ensures Valid() && Contents() == []
    {
      Init(null, 0);
    }

    /**
     * The two copies of z_kfifo_in: the head segment goes to the masked offset
     * of `in` up to the end of the storage, the rest to slot 0, so the n bytes
     * follow the stored ones in the ring.
     */
    method CopyIn(from: array<byte>, n: u32)
      requires Valid() && from != buffer && n <= Space() && n <= from.Length
      modifies buffer
      ensures size > 0 ==> RingView(buffer[..], size, outCursor, DataLen() + n) == old(Contents()) + from[..n]
    {
      var data := from[..];
      if size != 0 {
        CopyInPlan(buffer[..], data, size, outCursor, inCursor, n);
      }
      var off := And(inCursor, Wrap(size - 1));
      var l := Min(n, Wrap(size - off));
      Memcpy(buffer, off, data, 0, l);
      Memcpy(buffer, 0, data, l, n - l);
    }

    /**
     * z_kfifo_in: copies n = min(len, space) bytes of from behind the stored
     * ones, advances `in` by n and returns n. A null source transfers nothing.
     */
    method In(from: array?<byte>, len: u32) returns (n: u32)
      requires Valid()
      requires from != null ==> from != buffer && Min(Space(), len) <= from.Length
      modifies this`inCursor, buffer
      ensures Valid()
      ensures n == if from == null then 0 else Min(old(Space()), len)
      ensures inCursor == Wrap(old(inCursor) + n) && DataLen() == old(DataLen()) + n
      ensures Contents() == old(Contents()) + (if from == null then [] else from[..n])
    {
      if from == null {
        WrapInRange(inCursor);
        assert Contents() + [] == Contents();
        return 0;
      }
      n := Min(Space(), len);
      ghost var d, view := DataLen(), Contents();
      assert d + n <= size;
      AdvanceIn(inCursor, outCursor, n);
      CopyIn(from, n);
      inCursor := Wrap(inCursor + n);
      assert DataLen() == d + n;
      if size == 0 {
        assert n == 0 && from[..n] == [];
      } else {
        assert Contents() == RingView(buffer[..], size, outCursor, d + n) == view + from[..n];
      }
    }

    /**
     * z_kfifo_out_check: copies n = min(len, data_len) of the oldest stored
     * bytes to `to` (head segment from the masked offset of `out`, the rest from
     * slot 0) and returns n, leaving the ring as it was. A null destination
     * transfers nothing.
     */
    method OutCheck(to: array?<byte>, len: u32) returns (n: u32)
      requires Valid()
      requires to != null ==> to != buffer && Min(DataLen(), len) <= to.Length
      modifies to
      ensures n == if to == null then 0 else Min(DataLen(), len)
      ensures to != null ==> to[..n] == Contents()[..n] && to[n..] == old(to[n..])
      ensures Contents() == old(Contents())
    {
      if to == null {
        return 0;
      }
      var d := DataLen();
      n := Min(d, len);
      var stored := if buffer == null then [] else buffer[..];
      var off := And(outCursor, Wrap(size - 1));
      var l := Min(n, Wrap(size - off));
      if size != 0 {
        assert off == outCursor % size && l == Min(n, size - off) by {
          MaskedOffset(outCursor, outCursor, size);
        }
      }
      ghost var t := to[..];
      Memcpy(to, 0, stored, off, l);
      ghost var t0 := to[..];
      Memcpy(to, l, stored, 0, n - l);
      if size != 0 {
        RingRead(stored, t, t0, to[..], size, outCursor, d, n, off, l);
      }
    }

    /**
     * z_kfifo_out: the copy of z_kfifo_out_check followed by advancing `out` by
     * n, so the n bytes delivered are removed from the front of the ring.
     */
    method Out(to: array?<byte>, len: u32) returns (n: u32)
      requires Valid()
      requires to != null ==> to != buffer && Min(DataLen(), len) <= to.Length
      modifies this`outCursor, to
      ensures Valid()
      ensures n == if to == null then 0 else Min(old(DataLen()), len)
      ensures outCursor == Wrap(old(outCursor) + n) && DataLen() == old(DataLen()) - n
      ensures to != null ==> to[..n] == old(Contents())[..n] && to[n..] == old(to[n..])
      ensures Contents() == old(Contents())[n..]
    {
      n := OutCheck(to, len);
      AdvanceOut(inCursor, outCursor, n);
      if size > 0 {
        RingAdvance(buffer[..], size, outCursor, DataLen(), n);
      }
      outCursor := Wrap(outCursor + n);
      assert DataLen() == old(DataLen()) - n;
    }
  }

  /** The test pattern: an array of n bytes holding 0, 1, ..., n - 1. */
  method FillSequential(n: u32) returns (a: array<byte>)
    requires n <= 256
    ensures fresh(a) && a.Length == n
    ensures forall j :: 0 <= j < n ==> a[j] == j
  {
    a := new byte[n];
    var i: u32 := 0;
    while i < n
      invariant i <= n
      invariant forall j :: 0 <= j < i ==> a[j] == j
    {
      a[i] := i;
      i := i + 1;
    }
  }

  /**
   * One write and read of z_kfifo_test on an empty ring of n bytes: n bytes
   * go in and n come out, and with `compare` the bytes read are checked
   * against the bytes written. The failure branches are unreachable, so the
   * round always succeeds and leaves the ring empty.
   */
  method WriteReadRound(fifo: KFifo, dataIn: array<byte>, dataOut: array<byte>, n: u32, compare: bool) returns (ok: bool)
    requires fifo.Valid() && fifo.DataLen() == 0 && fifo.size == n
    requires dataIn.Length == n && dataOut.Length == n
    requires dataIn != fifo.buffer && dataOut != fifo.buffer && dataIn != dataOut
    modifies fifo`inCursor, fifo`outCursor, fifo.buffer, dataOut
    ensures ok && fifo.Valid() && fifo.DataLen() == 0 && fifo.size == n
    ensures dataOut[..] == dataIn[..]
  {
    ghost var input := dataIn[..];
    var written := fifo.In(dataIn, n);
    if written != n {
      assert false;
    }
    assert fifo.Contents() == input;
    var read := fifo.Out(dataOut, n);
    if read != n {
      assert false;
    }
    assert dataOut[..] == input;
    if compare {
      var i: u32 := 0;
      while i < n
        invariant i <= n && dataOut[..] == dataIn[..]
      {
        assert dataIn[i] == input[i];
        if dataOut[i] != dataIn[i] {
          assert false;
        }
        i := i + 1;
      }
    }
    return true;
  }

  /**
   * z_kfifo_test: fills 16 bytes with 0..15, allocates a 16-byte ring, writes
   * and reads 16 bytes twice (comparing after the first round), frees, and
   * returns 0, or (uint32_t)-1 when the allocation fails. Every other failure
   * branch is unreachable.
   */
  method KfifoTest(allocOk: bool) returns (r: u32)
    ensures r == if allocOk then 0 else 0xFFFF_FFFF
  {
    var bufferSize: u32 := 16;
    var dataIn := FillSequential(bufferSize);
    var dataOut := new byte[bufferSize];

    var fifo := new KFifo();
    Pow2Values();
    Pow2IsPowerOfTwo(4);
    var ret := fifo.Malloc(bufferSize, allocOk);
    if ret != 0 {
      return 0xFFFF_FFFF;
    }
    var ok := WriteReadRound(fifo, dataIn, dataOut, bufferSize, true);
    if !ok {
      assert false;
    }
    ok := WriteReadRound(fifo, dataIn, dataOut, bufferSize, false);
    if !ok {
      assert false;
    }

    fifo.Free();
    if fifo.buffer != null || fifo.size != 0 || fifo.inCursor != 0 || fifo.outCursor != 0 {
      assert false;
    }
    return 0;
  }
}
