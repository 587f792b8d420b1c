/**
 * The singleton thread-pool manager of src/z_thpool.c, with the threads
 * abstracted away: each locked region of the source is one atomic method on
 * the manager. Work records {cb, p_arg} travel through the manager's kfifo as
 * their byte image; a ghost queue of records says what the fifo holds.
 */
module ZThpool {
  import opened Machine
  import opened ZTool
  import opened ZKfifo

  // ---------------------------------------------------------------------------
  // struct z_thpool_msg_struct and its bytes
  // ---------------------------------------------------------------------------

  /** sizeof(void *): 4 on 32-bit targets, 8 on LP64. */
  type PtrWidth = w: nat | w == 4 || w == 8 witness 4

  /** A work record: the callback pointer and its argument pointer, as addresses. */
  datatype Msg = Msg(cb: nat, arg: nat)

  /** 256^w: the number of values a pointer of w bytes can hold, 2^(8w). */
  function WordLimit(w: nat): (r: nat)
    ensures r >= 1 && r == Pow2(8 * w)
  {
    if w == 0 then 1
    else
      Pow2Add(8, 8 * (w - 1));
      Pow2Values();
      256 * WordLimit(w - 1)
  }

  /** Both pointers of m fit in w bytes. */
  predicate Fits(m: Msg, w: nat)
  {
    m.cb < WordLimit(w) && m.arg < WordLimit(w)
  }

  /** The w bytes of a pointer value in memory, least significant first. */
  function EncodeWord(x: nat, w: nat): (r: seq<byte>)
    ensures |r| == w
  {
    if w == 0 then [] else [x % 256] + EncodeWord(x / 256, w - 1)
  }

  /** The pointer value stored in the bytes b, least significant first. */
  function DecodeWord(b: seq<byte>): (r: nat)
    ensures r < WordLimit(|b|)
  {
    if |b| == 0 then 0 else b[0] + 256 * DecodeWord(b[1..])
  }

  /** Reading back a stored pointer gives the pointer. */
  lemma {:induction false} DecodeEncodeWord(x: nat, w: nat)
    requires x < WordLimit(w)
    ensures DecodeWord(EncodeWord(x, w)) == x
  {
    if w > 0 {
      var e := EncodeWord(x, w);
      assert e[0] == x % 256 && e[1..] == EncodeWord(x / 256, w - 1);
      DivBelow(x, 256, WordLimit(w - 1));
      DecodeEncodeWord(x / 256, w - 1);
    }
  }

  /** Storing the pointer read from some bytes gives those bytes back. */
  lemma {:induction false} EncodeDecodeWord(b: seq<byte>)
    ensures EncodeWord(DecodeWord(b), |b|) == b
  {
    if |b| > 0 {
      var x := DecodeWord(b);
      var rest := DecodeWord(b[1..]);
      DivModUnique(x, 256, rest, b[0]);
      EncodeDecodeWord(b[1..]);
      assert EncodeWord(x, |b|) == [b[0]] + b[1..];
    }
  }

  /** The record size R = sizeof(struct z_thpool_msg_struct): two pointers of w bytes. */
  function RecordSize(w: nat): nat
  {
    2 * w
  }

  /** The bytes of a record as the struct lays them out: cb, then p_arg. */
  function EncodeMsg(m: Msg, w: nat): (r: seq<byte>)
    ensures |r| == RecordSize(w)
  {
    EncodeWord(m.cb, w) + EncodeWord(m.arg, w)
  }

  /** The record copied out of R bytes. */
  function DecodeMsg(b: seq<byte>, w: nat): (m: Msg)
    requires |b| == RecordSize(w)
    ensures Fits(m, w)
  {
    Msg(DecodeWord(b[..w]), DecodeWord(b[w..]))
  }

  /** A record read back from its bytes is the record written. */
  lemma DecodeEncodeMsg(m: Msg, w: nat)
    requires Fits(m, w)
    ensures DecodeMsg(EncodeMsg(m, w), w) == m
  {
    var e := EncodeMsg(m, w);
    assert e[..w] == EncodeWord(m.cb, w) && e[w..] == EncodeWord(m.arg, w);
    DecodeEncodeWord(m.cb, w);
    DecodeEncodeWord(m.arg, w);
  }

  /** Any R bytes are the image of the record they decode to. */
  lemma EncodeDecodeMsg(b: seq<byte>, w: nat)
    requires |b| == RecordSize(w)
    ensures EncodeMsg(DecodeMsg(b, w), w) == b
  {
    EncodeDecodeWord(b[..w]);
    EncodeDecodeWord(b[w..]);
    assert b == b[..w] + b[w..];
  }

  /** The bytes of a queue of records, oldest first, back to back. */
  function EncodeAll(q: seq<Msg>, w: nat): (r: seq<byte>)
    ensures |r| == |q| * RecordSize(w)
  {
    if |q| == 0 then [] else EncodeMsg(q[0], w) + EncodeAll(q[1..], w)
  }

  /** Appending a record appends its bytes. */
  lemma {:induction false} EncodeAllAppend(q: seq<Msg>, m: Msg, w: nat)
    ensures EncodeAll(q + [m], w) == EncodeAll(q, w) + EncodeMsg(m, w)
  {
    if |q| == 0 {
      assert q + [m] == [m];
    } else {
      assert (q + [m])[1..] == q[1..] + [m];
      EncodeAllAppend(q[1..], m, w);
    }
  }

  /** The first R bytes of a non-empty queue are its oldest record, the rest the others. */
  lemma EncodeAllFront(q: seq<Msg>, w: nat)
    requires |q| > 0
    ensures EncodeAll(q, w)[..RecordSize(w)] == EncodeMsg(q[0], w)
    ensures EncodeAll(q, w)[RecordSize(w)..] == EncodeAll(q[1..], w)
  {
  }

  /**
   * A byte image of a queue with at least R bytes has a first record: its
   * first R bytes decode to that record and the rest is the image of the
   * remaining records.
   */
  lemma FrontRecord(b: seq<byte>, q: seq<Msg>, w: nat)
    requires b == EncodeAll(q, w) && |b| >= RecordSize(w) > 0
    requires forall m :: m in q ==> Fits(m, w)
    ensures q != [] && b[..RecordSize(w)] == EncodeMsg(q[0], w) && b[RecordSize(w)..] == EncodeAll(q[1..], w)
    ensures DecodeMsg(b[..RecordSize(w)], w) == q[0]
    ensures forall m :: m in q[1..] ==> Fits(m, w)
  {
    assert q != [];
    EncodeAllFront(q, w);
    DecodeEncodeMsg(q[0], w);
  }

  // ---------------------------------------------------------------------------
  // struct z_thpool_config_struct and the queue capacity
  // ---------------------------------------------------------------------------

  /** The configuration passed to z_thpool_start. */
  datatype Config = Config(maxThreadNums: u32, msgNodeMax: u32, threadStackSize: u32)

  /** The kfifo size z_thpool_start asks for: R * msg_node_max, truncated to uint32_t. */
  function QueueBytes(w: nat, msgNodeMax: u32): (r: u32)
    ensures RecordSize(w) * msgNodeMax < U32_LIMIT ==> r == RecordSize(w) * msgNodeMax
  {
    Wrap(RecordSize(w) * msgNodeMax)
  }

  /**
   * With k records stored and none taken, the next add_work is admitted exactly
   * when k is below size / R: the queue holds size / R records.
   */
  lemma AdmittedBelowCapacity(size: nat, r: nat, k: nat)
    requires r > 0 && k * r <= size
    ensures size - k * r >= r <==> k < size / r
  {
    var c := size / r;
    assert size == c * r + size % r;
    if k < c {
      assert (k + 1) * r <= c * r by { MulMonotone(k + 1, c, r); }
    } else {
      assert c * r + r == (c + 1) * r;
      assert (c + 1) * r <= k * r + r by { MulMonotone(c + 1, k + 1, r); }
    }
  }

  lemma MulMonotone(a: nat, b: nat, c: nat)
    requires a <= b
    ensures a * c <= b * c
  {
  }

  lemma MulStep(a: nat, b: nat, c: nat)
    requires a < b
    ensures a * c + c <= b * c
  {
    MulMonotone(a + 1, b, c);
    assert (a + 1) * c == a * c + c;
  }

  /**
   * The queue that z_thpool_start allocates for m records of R bytes (R a power
   * of two, R * m at most 2^31) holds between m and 2m - 1 records: its size is
   * a power of two, a multiple of R, and rounding up can leave room for more
   * records than msg_node_max.
   */
  lemma QueueCapacity(w: nat, m: u32)
    requires w == 4 || w == 8
    requires 0 < m && RecordSize(w) * m <= 0x8000_0000
    ensures var size := AllocSize(QueueBytes(w, m));
            size % RecordSize(w) == 0 && m <= size / RecordSize(w) < 2 * m
  {
    var r := RecordSize(w);
    var n: int := QueueBytes(w, m);
    assert n == r * m;
    var size: int := AllocSize(QueueBytes(w, m));
    assert IsPowerOfTwo(size) && n <= size < 2 * n;
    RecordSizeIsPowerOfTwo(w);
    PowerOfTwoCapacity(size, r, m);
  }

  /**
   * A msg_node_max that is a power of two needs no rounding: R * m is then a
   * power of two itself, and the queue holds exactly m records.
   */
  lemma ExactCapacity(w: nat, m: u32)
    requires w == 4 || w == 8
    requires IsPowerOfTwo(m) && RecordSize(w) * m < U32_LIMIT
    ensures AllocSize(QueueBytes(w, m)) == RecordSize(w) * m
    ensures AllocSize(QueueBytes(w, m)) / RecordSize(w) == m
  {
    RecordSizeIsPowerOfTwo(w);
    PowerOfTwoBlocks(RecordSize(w), m);
  }

  /** r * m bytes, both powers of two, are not rounded and hold exactly m blocks of r. */
  lemma PowerOfTwoBlocks(r: int, m: int)
    requires IsPowerOfTwo(r) && IsPowerOfTwo(m) && r * m < U32_LIMIT
    ensures AllocSize(r * m) == r * m && (r * m) / r == m
  {
    ProductOfPowersOfTwo(r, m);
    DivModUnique(r * m, r, m, 0);
  }

  /** The product of two powers of two is a power of two. */
  lemma ProductOfPowersOfTwo(p: int, q: int)
    requires IsPowerOfTwo(p) && IsPowerOfTwo(q)
    ensures IsPowerOfTwo(p * q)
  {
    var a, b := Log2(p), Log2(q);
    Pow2Add(a, b);
    Pow2IsPowerOfTwo(a + b);
  }

  /** A power of two in [r * m, 2 * r * m), r a power of two, holds m to 2m - 1 blocks of r. */
  lemma PowerOfTwoCapacity(size: int, r: int, m: nat)
    requires IsPowerOfTwo(size) && IsPowerOfTwo(r) && m > 0
    requires r * m <= size < 2 * (r * m)
    ensures size % r == 0 && m <= size / r < 2 * m
  {
    MulMonotone(1, m, r);
    var c := PowerOfTwoMultiple(r, size);
    DivModUnique(size, r, c, 0);
    QuotientBounds(size, r, m, c);
  }

  /** A multiple c * r of r lying in [r * m, 2 * r * m) has c in [m, 2m). */
  lemma QuotientBounds(size: nat, r: nat, m: nat, c: nat)
    requires r > 0 && size == c * r && r * m <= size < 2 * (r * m)
    ensures m <= c < 2 * m
  {
    MulDouble(r, m);
    if c < m {
      MulStep(c, m, r);
      assert false;
    }
    if c >= 2 * m {
      MulMonotone(2 * m, c, r);
      assert false;
    }
  }

  /** R is 8 or 16, a power of two. */
  lemma RecordSizeIsPowerOfTwo(w: nat)
    requires w == 4 || w == 8
    ensures IsPowerOfTwo(RecordSize(w))
  {
    Pow2Values();
    assert Pow2(3) == 8 by { assert Pow2(1) == 2 && Pow2(2) == 4; }
    if w == 4 {
      Pow2IsPowerOfTwo(3);
    } else {
      Pow2IsPowerOfTwo(4);
    }
  }

  /**
   * A cursor that is a multiple of the record size R is still one after it
   * advances by R and wraps at 2^32, R being a power of two.
   */
  lemma StepKeepsAlignment(x: int, r: int)
    requires IsPowerOfTwo(r) && r <= U32_LIMIT && x % r == 0
    ensures Wrap(x + r) % r == 0
  {
    WrapKeepsRemainder(x + r, 0, r);
    ModAddMultiple(x, 1, r);
  }

  /**
   * The fifo z_thpool_start allocates holds a whole number of records,
   * whatever msg_node_max is: the wrapped product and its roundup are both
   * multiples of R, or zero.
   */
  lemma AllocHoldsWholeRecords(w: nat, m: u32)
    requires w == 4 || w == 8
    ensures AllocSize(QueueBytes(w, m)) % RecordSize(w) == 0
  {
    RecordSizeIsPowerOfTwo(w);
    WrappedMultiple(RecordSize(w), m);
    RoundupKeepsMultiple(QueueBytes(w, m), RecordSize(w));
  }

  /** A multiple of a power of two r <= 2^32 stays one when wrapped at 2^32. */
  lemma WrappedMultiple(r: int, k: int)
    requires IsPowerOfTwo(r) && r <= U32_LIMIT
    ensures Wrap(r * k) % r == 0
  {
    WrapKeepsRemainder(r * k, 0, r);
    DivModUnique(r * k, r, k, 0);
  }

  /** Rounding a multiple of a power of two r up to a power of two gives a multiple of r, or 0. */
  lemma RoundupKeepsMultiple(x: u32, r: int)
    requires IsPowerOfTwo(r) && x % r == 0
    ensures AllocSize(x) % r == 0
  {
    var s := AllocSize(x);
    if s != 0 {
      assert 0 < x <= s;
      if x < r {
        DivModUnique(x, r, 0, x);
        assert false;
      }
      var c := PowerOfTwoMultiple(r, s);
      DivModUnique(s, r, c, 0);
    }
  }

  /** A multiple of r below another multiple of r leaves room for r more. */
  lemma AlignedRoom(y: int, size: int, r: int)
    requires r > 0 && 0 <= y < size && y % r == 0 && size % r == 0
    ensures y + r <= size
  {
    var a, c := y / r, size / r;
    assert y == a * r && size == c * r;
    if a >= c {
      MulMonotone(c, a, r);
      assert false;
    }
    MulStep(a, c, r);
  }

  /** The slot of a cursor that is a multiple of r, in a buffer of whole r-blocks, is a multiple of r. */
  lemma SlotAligned(x: int, size: int, r: int)
    requires r > 0 && size > 0 && x % r == 0 && size % r == 0
    ensures (x % size) % r == 0
  {
    var q, c := x / size, size / r;
    assert x == q * size + x % size;
    assert size == c * r;
    assert q * size == (q * c) * r;
    ModAddMultiple(x % size, q * c, r);
  }


  /**
   * The configuration of z_thpool_test (100 records) gives a 1 KiB or 2 KiB
   * queue of 128 records, on 32-bit and on 64-bit pointers alike.
   */
  lemma TestCapacity(w: nat)
    requires w == 4 || w == 8
    ensures AllocSize(QueueBytes(w, 100)) / RecordSize(w) == 128
  {
    Pow2Values();
    assert Pow2(10) == 1024 && Pow2(11) == 2048 by { Pow2Add(8, 2); Pow2Add(8, 3); }
    var n := QueueBytes(w, 100);
    if w == 4 {
      assert n == 800;
      Pow2IsPowerOfTwo(10);
      RoundupIsUnique(800, 1024);
    } else {
      assert n == 1600;
      Pow2IsPowerOfTwo(11);
      RoundupIsUnique(1600, 2048);
    }
    MaskOfPredecessor(n);
  }

  /**
   * The first index below n at which spawning a worker fails, or n when every
   * spawn from `from` on succeeds.
   */
  function FirstFailure(spawn: nat -> i32, from: nat, n: nat): (k: nat)
    decreases n - from
    ensures from <= n ==> from <= k <= n
    ensures k < n ==> spawn(k) != 0
    ensures forall j :: from <= j < k ==> spawn(j) == 0
  {
    if from >= n then n
    else if spawn(from) != 0 then from
    else FirstFailure(spawn, from + 1, n)
  }

  // ---------------------------------------------------------------------------
  // struct z_thpool_mng_struct
  // ---------------------------------------------------------------------------

  /** What z_thpool_cmd_shell_show reports. */
  datatype Stats = Stats(maxThpoolNums: u32, createNums: u32, busyNums: u32,
                         maxCacheNums: u32, useCacheNums: u32, pubBytes: u32, subBytes: u32)

  /** The manager gs_thpool_mng; wordBytes is sizeof(void *). */
  class ThreadPoolManager {
    const wordBytes: PtrWidth
    const fifo: KFifo
    var startFlag: i32
    var thRunFlag: i32
    var thRunNums: u32
    var thBusyNums: u32
    var maxNums: u32
    var msgNodeMax: u32
    var pubBytes: u32
    var subBytes: u32
    /** The records in the fifo, oldest first. */
    ghost var queue: seq<Msg>
    /** The worker threads that were spawned and have not yet left z_thpool_proc. */
    ghost var live: nat

    /** R for this manager: 8 bytes on 32-bit targets and 16 on LP64, a power of two either way. */
    function R(): (r: nat)
      ensures r == 8 || r == 16
      ensures IsPowerOfTwo(r)
    {
      RecordSizeIsPowerOfTwo(wordBytes);
      RecordSize(wordBytes)
    }

    /**
     * The fifo holds exactly the bytes of the queued records, pub_bytes
     * and sub_bytes run in step with the fifo's `in` and `out`, and the
     * capacity and both cursors are whole numbers of records.
     */
    ghost predicate QueueValid()
      reads this`queue, this`pubBytes, this`subBytes, fifo, fifo.buffer
    {
      fifo.Valid() &&
      (forall m :: m in queue ==> Fits(m, wordBytes)) &&
      fifo.Contents() == EncodeAll(queue, wordBytes) &&
      pubBytes == fifo.inCursor && subBytes == fifo.outCursor &&
      fifo.size % R() == 0 && fifo.inCursor % R() == 0 && fifo.outCursor % R() == 0
    }

    /**
     * Between calls, besides: th_run_nums counts the live workers, a stopped
     * pool owns no storage and has no worker, and a started one is running.
     */
    ghost predicate Valid()
      reads this`queue, this`pubBytes, this`subBytes, this`startFlag, this`thRunFlag
      reads this`thRunNums, this`live, fifo, fifo.buffer
    {
      QueueValid() &&
      thRunNums == live &&
      (startFlag == 0 || startFlag == 1) &&
      (startFlag == 0 ==> fifo.size == 0 && live == 0) &&
      (startFlag == 1 ==> thRunFlag == 1)
    }

    /** The zero-initialised static manager. */
    constructor (w: PtrWidth)
      ensures Valid() && wordBytes == w && fresh(fifo)
      ensures startFlag == 0 && thRunFlag == 0 && thRunNums == 0 && thBusyNums == 0
      ensures maxNums == 0 && msgNodeMax == 0 && pubBytes == 0 && subBytes == 0 && queue == [] && live == 0
    {
      wordBytes := w;
      fifo := new KFifo();
      startFlag, thRunFlag, thRunNums, thBusyNums := 0, 0, 0, 0;
      maxNums, msgNodeMax, pubBytes, subBytes := 0, 0, 0, 0;
      queue, live := [], 0;
    }

    /**
     * memset of the whole manager, the embedded kfifo included. It cannot stop
     * threads, so it is only done when none is live.
     */
    method ZeroAll()
      requires live == 0
      modifies this, fifo
      ensures Valid() && live == 0
      ensures startFlag == 0 && thRunFlag == 0 && thRunNums == 0 && thBusyNums == 0
      ensures maxNums == 0 && msgNodeMax == 0 && pubBytes == 0 && subBytes == 0 && queue == []
      ensures fifo.buffer == null && fifo.size == 0 && fifo.inCursor == 0 && fifo.outCursor == 0
    {
      startFlag, thRunFlag, thRunNums, thBusyNums := 0, 0, 0, 0;
      maxNums, msgNodeMax, pubBytes, subBytes := 0, 0, 0, 0;
      fifo.buffer, fifo.size, fifo.inCursor, fifo.outCursor := null, 0, 0, 0;
      queue := [];
      assert fifo.Valid() && fifo.Contents() == [] == EncodeAll(queue, wordBytes);
    }

    /** The whole records in the fifo, counted from its length as z_thpool_cmd_shell_show does. */
    function UsedCache(): (r: u32)
      reads this, fifo
      ensures r * R() <= fifo.DataLen() < r * R() + R()
    {
      var d, r := fifo.DataLen(), R();
      assert d == (d / r) * r + d % r;
      d / r
    }

    /** The "use cache nums" figure is the number of queued records, and at most capacity / R. */
    lemma UsedCacheCounts()
      requires Valid()
      ensures UsedCache() == |queue|
      ensures UsedCache() <= fifo.size / R()
    {
      var r := R();
      var n := |queue|;
      assert fifo.DataLen() == n * r;
      DivModUnique(n * r, r, n, 0);
      var c := fifo.size / r;
      assert fifo.size == c * r + fifo.size % r;
      if n > c {
        MulStep(c, n, r);
        assert false;
      }
    }

    /**
     * Masking by the fifo size never splits a record: from the slot
     * `in & (size - 1)` or `out & (size - 1)`, R bytes fit before the end of
     * the buffer, so z_kfifo_in and z_kfifo_out copy every record in one piece.
     */
    lemma RecordsNeverStraddle()
      requires QueueValid() && fifo.size > 0
      ensures And(fifo.inCursor, Wrap(fifo.size - 1)) + R() <= fifo.size
      ensures And(fifo.outCursor, Wrap(fifo.size - 1)) + R() <= fifo.size
    {
      var s, r := fifo.size, R();
      MaskedOffset(fifo.inCursor, fifo.inCursor, s);
      MaskedOffset(fifo.outCursor, fifo.outCursor, s);
      SlotAligned(fifo.inCursor, s, r);
      SlotAligned(fifo.outCursor, s, r);
      AlignedRoom(fifo.inCursor % s, s, r);
      AlignedRoom(fifo.outCursor % s, s, r);
    }

    /**
     * pub_bytes and sub_bytes differ, modulo 2^32, by R for every record
     * still queued: every byte published is either consumed or queued.
     */
    lemma CountersTrackQueue()
      requires Valid()
      ensures Wrap(pubBytes - subBytes) == |queue| * R()
    {
      assert |fifo.Contents()| == |EncodeAll(queue, wordBytes)|;
    }

    /**
     * z_thpool_cmd_shell_show without the printing: the figures it reports.
     * The used-cache figure is the number of queued records, at most the
     * fifo's capacity in records, and the byte counters differ by exactly
     * that many records.
     */
    function ShellShow(): (s: Stats)
      requires Valid()
      reads this, fifo, fifo.buffer
      ensures s.useCacheNums == |queue| && s.useCacheNums <= fifo.size / R()
      ensures Wrap(s.pubBytes - s.subBytes) == s.useCacheNums * R()
      ensures s.createNums == live
    {
      UsedCacheCounts();
      CountersTrackQueue();
      Stats(maxNums, thRunNums, thBusyNums, msgNodeMax, UsedCache(), pubBytes, subBytes)
    }

    /**
     * z_thpool_add_work(cb, p_arg): rejects null pointers, a stopped pool and
     * a fifo with less than R bytes free (it never waits); otherwise copies the
     * record into the fifo, adds R to pub_bytes and returns 0.
     */
    method AddWork(m: Msg) returns (ret: i32)
      requires Valid() && Fits(m, wordBytes)
      modifies this`queue, this`pubBytes, fifo`inCursor, fifo.buffer
      ensures Valid()
      ensures ret == 0 <==> m.cb != 0 && m.arg != 0 && old(startFlag) != 0 && old(fifo.Space()) >= R()
      ensures ret != 0 ==> ret == -1 && queue == old(queue) && pubBytes == old(pubBytes) && fifo.inCursor == old(fifo.inCursor)
      ensures ret == 0 ==> queue == old(queue) + [m] && pubBytes == Wrap(old(pubBytes) + R())
    {
      if m.cb == 0 || m.arg == 0 {
        return -1;
      }
      if startFlag == 0 {
        return -1;
      }
      if fifo.Space() < R() {
        return -1;
      }
      var len := PushRecord(m);
      if len != R() {
        assert false;
      }
      pubBytes := Wrap(pubBytes + len);
      assert QueueValid();
      return 0;
    }

    /**
     * The record's bytes (the struct on the stack) copied into the fifo by
     * z_kfifo_in; the ghost queue gains the record.
     */
    method PushRecord(m: Msg) returns (len: u32)
      requires QueueValid() && Fits(m, wordBytes) && fifo.Space() >= R()
      modifies this`queue, fifo`inCursor, fifo.buffer
      ensures fifo.Valid() && (forall x :: x in queue ==> Fits(x, wordBytes))
      ensures fifo.Contents() == EncodeAll(queue, wordBytes)
      ensures len == R() && fifo.inCursor == Wrap(old(fifo.inCursor) + R()) && queue == old(queue) + [m]
      ensures fifo.inCursor % R() == 0
    {
      var image := EncodeMsg(m, wordBytes);
      var record := new byte[R()](i => if 0 <= i < |image| then image[i] else 0);
      assert record[..] == image;
      ghost var q := queue;
      len := fifo.In(record, R());
      assert record[..len] == image;
      EncodeAllAppend(q, m, wordBytes);
      assert fifo.inCursor % R() == 0 by {
        StepKeepsAlignment(old(fifo.inCursor), R());
      }
      queue := q + [m];
    }

    /**
     * The locked part of z_thpool_msg_read that takes a record: with the pool
     * running and at least R bytes queued, the oldest record comes out of the
     * fifo, th_busy_nums goes up by one and sub_bytes by R; otherwise nothing
     * happens.
     */
    method DequeueStep() returns (fired: bool, m: Msg)
      requires Valid() && live > 0
      modifies this`queue, this`subBytes, this`thBusyNums, fifo`outCursor
      ensures Valid()
      ensures fired <==> old(thRunFlag) != 0 && old(fifo.DataLen()) >= R()
      ensures !fired ==> queue == old(queue) && subBytes == old(subBytes) &&
                         thBusyNums == old(thBusyNums) && fifo.outCursor == old(fifo.outCursor)
      ensures fired ==> old(queue) != [] && m == old(queue)[0] && queue == old(queue)[1..]
      ensures fired ==> thBusyNums == Wrap(old(thBusyNums) + 1) && subBytes == Wrap(old(subBytes) + R())
    {
      if thRunFlag == 0 || fifo.DataLen() < R() {
        return false, Msg(0, 0);
      }
      var len;
      len, m := PopRecord();
      thBusyNums, subBytes := Wrap(thBusyNums + 1), Wrap(subBytes + len);
      return true, m;
    }

    /**
     * The oldest record's bytes copied out of the fifo by z_kfifo_out into the
     * struct on the stack; the ghost queue loses the record.
     */
    method PopRecord() returns (len: u32, m: Msg)
      requires QueueValid() && fifo.DataLen() >= R()
      modifies this`queue, fifo`outCursor
      ensures fifo.Valid() && (forall x :: x in queue ==> Fits(x, wordBytes))
      ensures fifo.Contents() == EncodeAll(queue, wordBytes)
      ensures len == R() && fifo.outCursor == Wrap(old(fifo.outCursor) + R())
      ensures fifo.outCursor % R() == 0
      ensures old(queue) != [] && m == old(queue)[0] && queue == old(queue)[1..]
    {
      ghost var q, stored := queue, fifo.Contents();
      FrontRecord(stored, q, wordBytes);
      var record := new byte[R()];
      len := fifo.Out(record, R());
      assert record[..] == record[..len] == stored[..len];
      m := DecodeMsg(record[..], wordBytes);
      assert fifo.outCursor % R() == 0 by {
        StepKeepsAlignment(old(fifo.outCursor), R());
      }
      queue := q[1..];
    }

    /** The locked part of z_thpool_msg_read after the callback: th_busy_nums goes down by one. */
    method CallbackDone()
      requires Valid()
      modifies this`thBusyNums
      ensures Valid()
      ensures thBusyNums == Wrap(old(thBusyNums) - 1)
    {
      thBusyNums := Wrap(thBusyNums - 1);
    }

    /**
     * z_thpool_msg_read once its wait is over: take a record, run its callback
     * (an event outside the model) and finish, so th_busy_nums is back where
     * it was.
     */
    method MsgRead() returns (fired: bool, m: Msg)
      requires Valid() && live > 0
      modifies this`queue, this`subBytes, this`thBusyNums, fifo`outCursor
      ensures Valid()
      ensures fired <==> old(thRunFlag) != 0 && old(fifo.DataLen()) >= R()
      ensures fired ==> old(queue) != [] && m == old(queue)[0] && queue == old(queue)[1..]
      ensures !fired ==> queue == old(queue) && subBytes == old(subBytes)
      ensures fired ==> subBytes == Wrap(old(subBytes) + R())
      ensures thBusyNums == old(thBusyNums)
    {
      fired, m := DequeueStep();
      if fired {
        CallbackDone();
        WrapUndoesIncrement(old(thBusyNums));
      }
    }

    /**
     * z_thpool_start(config): refuses a started pool; otherwise clears the
     * manager, takes the thread and record counts, allocates the fifo
     * (allocOk says whether malloc succeeds) and spawns max_nums workers, the
     * i-th spawn returning spawn(i). A failed spawn stops the pool, waits
     * until every spawned worker has left, frees the fifo and returns the
     * spawn's error code. The spawn loop used here takes back the count of the
     * failed worker; the loop as written does not (see SpawnWorkers).
     */
    method Start(config: Config, allocOk: bool, spawn: nat -> i32) returns (ret: i32)
      requires Valid()
      modifies this, fifo
      ensures Valid()
      ensures old(startFlag) != 0 ==> ret == -1 && unchanged(this) && unchanged(fifo)
      ensures old(startFlag) == 0 ==>
                maxNums == config.maxThreadNums && msgNodeMax == config.msgNodeMax &&
                thBusyNums == 0 && pubBytes == 0 && subBytes == 0 && queue == []
      ensures old(startFlag) == 0 && !allocOk ==>
                ret == -1 && startFlag == 0 && thRunFlag == 0 && thRunNums == 0 &&
                fifo.buffer == null && fifo.size == 0
      ensures old(startFlag) == 0 && allocOk ==>
                var k := FirstFailure(spawn, 0, config.maxThreadNums);
                if k == config.maxThreadNums then
                  ret == 0 && startFlag == 1 && thRunFlag == 1 && thRunNums == config.maxThreadNums &&
                  fifo.size == AllocSize(QueueBytes(wordBytes, config.msgNodeMax)) &&
                  fifo.buffer != null && fresh(fifo.buffer) && fifo.DataLen() == 0
                else
                  ret == spawn(k) && ret != 0 && startFlag == 0 && thRunFlag == 0 && thRunNums == 0 &&
                  fifo.buffer == null && fifo.size == 0
    {
      if startFlag != 0 {
        return -1;
      }
      ZeroAll();
      maxNums, msgNodeMax := config.maxThreadNums, config.msgNodeMax;
      ret := Launch(allocOk, spawn);
    }

    /**
     * z_thpool_start after the memset and the configuration: allocate the
     * fifo, set th_run_flag and spawn the workers; when a spawn fails, clear
     * th_run_flag and free the fifo.
     */
    method Launch(allocOk: bool, spawn: nat -> i32) returns (ret: i32)
      requires QueueValid() && queue == [] && pubBytes == 0 && subBytes == 0
      requires startFlag == 0 && thRunFlag == 0 && thRunNums == 0 && live == 0
      modifies this`startFlag, this`thRunFlag, this`thRunNums, this`live, fifo
      ensures Valid() && queue == [] && pubBytes == 0 && subBytes == 0
      ensures !allocOk ==>
                ret == -1 && startFlag == 0 && thRunFlag == 0 && thRunNums == 0 &&
                fifo.buffer == null && fifo.size == 0
      ensures allocOk ==>
                var k := FirstFailure(spawn, 0, maxNums);
                if k == maxNums then
                  ret == 0 && startFlag == 1 && thRunFlag == 1 && thRunNums == maxNums &&
                  fifo.size == AllocSize(QueueBytes(wordBytes, msgNodeMax)) &&
                  fifo.buffer != null && fresh(fifo.buffer) && fifo.DataLen() == 0
                else
                  ret == spawn(k) && ret != 0 && startFlag == 0 && thRunFlag == 0 && thRunNums == 0 &&
                  fifo.buffer == null && fifo.size == 0
    {
      var bytes := QueueBytes(wordBytes, msgNodeMax);
      ret := fifo.Malloc(bytes, allocOk);
      AllocHoldsWholeRecords(wordBytes, msgNodeMax);
      assert QueueValid();
      if ret != 0 {
        return ret;
      }
      ret := Run(spawn);
    }

    /**
     * z_thpool_start once the fifo is allocated: set th_run_flag and spawn the
     * workers; the pool is started when every spawn succeeds, and rolled back
     * at the first failure.
     */
    method Run(spawn: nat -> i32) returns (ret: i32)
      requires QueueValid() && queue == [] && pubBytes == 0 && subBytes == 0
      requires startFlag == 0 && thRunFlag == 0 && thRunNums == 0 && live == 0
      modifies this`startFlag, this`thRunFlag, this`thRunNums, this`live, fifo
      ensures Valid()
      ensures var k := FirstFailure(spawn, 0, maxNums);
              if k == maxNums then
                ret == 0 && startFlag == 1 && thRunFlag == 1 && thRunNums == maxNums && unchanged(fifo)
              else
                ret == spawn(k) && ret != 0 && startFlag == 0 && thRunFlag == 0 && thRunNums == 0 &&
                fifo.buffer == null && fifo.size == 0
    {
      thRunFlag := 1;
      ret := SpawnWorkersWithUndo(spawn);
      if ret != 0 {
        Rollback();
        return ret;
      }
      startFlag := 1;
      return 0;
    }

    /**
     * The error2 path of z_thpool_start: clear th_run_flag, let every live
     * worker leave (th_run_nums counts exactly them) and free the fifo.
     */
    method Rollback()
      requires QueueValid() && queue == [] && pubBytes == 0 && subBytes == 0 && startFlag == 0
      requires thRunNums == live
      modifies this`thRunFlag, this`thRunNums, this`live, fifo
      ensures Valid() && thRunFlag == 0 && thRunNums == 0 && live == 0
      ensures fifo.buffer == null && fifo.size == 0
    {
      thRunFlag := 0;
      WorkersLeave(thRunNums);
      fifo.Free();
    }

    /**
     * The end of z_thpool_proc for `count` workers that see th_run_flag == 0:
     * each takes th_run_nums down by one as it leaves. Only live workers can
     * leave, so count is at most the number of live workers, and th_run_nums
     * loses exactly as many as leave.
     */
    method WorkersLeave(count: nat)
      requires thRunFlag == 0 && count <= live && count <= thRunNums
      modifies this`thRunNums, this`live
      ensures live == old(live) - count
      ensures thRunNums == old(thRunNums) - count
    {
      var left := 0;
      while left < count
        invariant left <= count
        invariant live == old(live) - left && thRunNums == old(thRunNums) - left
      {
        thRunNums, live := thRunNums - 1, live - 1;
        left := left + 1;
      }
    }

    /**
     * The spawn loop of z_thpool_start as written: for i below max_nums,
     * th_run_nums goes up by one and then the i-th worker is spawned; the first
     * failure ends the loop with its error code. th_run_nums then counts the
     * worker that failed to start as well as the k that run.
     */
    method SpawnWorkers(spawn: nat -> i32) returns (ret: i32)
      requires thRunNums == 0 && live == 0
      modifies this`thRunNums, this`live
      ensures var k := FirstFailure(spawn, 0, maxNums);
              if k == maxNums then ret == 0 && thRunNums == live == maxNums
              else ret == spawn(k) && ret != 0 && live == k && thRunNums == k + 1
    {
      var i: u32 := 0;
      while i < maxNums
        invariant i <= maxNums && thRunNums == live == i
        invariant forall j :: 0 <= j < i ==> spawn(j) == 0
        invariant FirstFailure(spawn, 0, maxNums) == FirstFailure(spawn, i, maxNums)
      {
        thRunNums := thRunNums + 1;
        ret := spawn(i);
        if ret != 0 {
          return ret;
        }
        live := live + 1;
        i := i + 1;
      }
      return 0;
    }

    /**
     * The spawn loop with the evidently intended bookkeeping: a worker whose
     * spawn fails is taken back off th_run_nums, so th_run_nums is always the
     * number of workers that run.
     */
    method SpawnWorkersWithUndo(spawn: nat -> i32) returns (ret: i32)
      requires thRunNums == 0 && live == 0
      modifies this`thRunNums, this`live
      ensures thRunNums == live
      ensures var k := FirstFailure(spawn, 0, maxNums);
              if k == maxNums then ret == 0 && live == maxNums
              else ret == spawn(k) && ret != 0 && live == k
    {
      var i: u32 := 0;
      while i < maxNums
        invariant i <= maxNums && thRunNums == live == i
        invariant forall j :: 0 <= j < i ==> spawn(j) == 0
        invariant FirstFailure(spawn, 0, maxNums) == FirstFailure(spawn, i, maxNums)
      {
        thRunNums := thRunNums + 1;
        ret := spawn(i);
        if ret != 0 {
          thRunNums := thRunNums - 1;
          return ret;
        }
        live := live + 1;
        i := i + 1;
      }
      return 0;
    }

    /**
     * The error2 path after the spawn loop as written: once every live
     * worker has left, th_run_nums is still 1, so the drain loop
     * `while (p_mng->th_run_nums)` keeps polling with no worker left that
     * could bring it to 0.
     */
    method RollbackAsWritten(spawn: nat -> i32) returns (left: u32)
      requires thRunNums == 0 && live == 0 && FirstFailure(spawn, 0, maxNums) < maxNums
      modifies this`thRunFlag, this`thRunNums, this`live
      ensures live == 0 && left == thRunNums == 1
    {
      thRunFlag := 1;
      var ret := SpawnWorkers(spawn);
      thRunFlag := 0;
      WorkersLeave(FirstFailure(spawn, 0, maxNums));
      left := thRunNums;
    }

    /**
     * z_thpool_exit: nothing on a stopped pool; otherwise stops the workers,
     * waits until all of them have left, frees the fifo and clears the whole
     * manager.
     */
    method Exit()
      requires Valid()
      modifies this, fifo
      ensures Valid()
      ensures old(startFlag) == 0 ==> unchanged(this) && unchanged(fifo)
      ensures old(startFlag) != 0 ==>
                startFlag == 0 && thRunFlag == 0 && thRunNums == 0 && thBusyNums == 0 &&
                maxNums == 0 && msgNodeMax == 0 && pubBytes == 0 && subBytes == 0 && queue == [] &&
                fifo.buffer == null && fifo.size == 0 && fifo.inCursor == 0 && fifo.outCursor == 0
    {
      if startFlag == 0 {
        return;
      }
      thRunFlag := 0;
      WorkersLeave(thRunNums);
      fifo.Free();
      ZeroAll();
    }
  }

  /**
   * The smallest input on which z_thpool_start as written never returns: one
   * worker configured and its spawn failing with EAGAIN (11). No worker runs,
   * yet th_run_nums stays at 1.
   */
  method SpawnFailureExample(w: PtrWidth) returns (running: nat, left: u32)
    ensures running == 0 && left == 1
  {
    var mng := new ThreadPoolManager(w);
    mng.maxNums := 1;
    var spawn: nat -> i32 := i => 11;
    running := FirstFailure(spawn, 0, 1);
    left := mng.RollbackAsWritten(spawn);
  }

  /**
   * Backpressure with no worker taking records: z_thpool_add_work is called
   * with the same record until it is refused. A started pool with an empty
   * queue accepts exactly size / R records, never waits, and the refusal
   * leaves the queue as it was.
   */
  method AddUntilRefused(mng: ThreadPoolManager, m: Msg) returns (accepted: nat)
    requires mng.Valid() && mng.startFlag == 1 && mng.queue == []
    requires Fits(m, mng.wordBytes) && m.cb != 0 && m.arg != 0
    modifies mng`queue, mng`pubBytes, mng.fifo`inCursor, mng.fifo.buffer
    ensures mng.Valid()
    ensures accepted == mng.fifo.size / mng.R()
    ensures mng.queue == seq(accepted, _ => m)
  {
    accepted := 0;
    ghost var capacity := mng.fifo.size / mng.R();
    while true
      invariant mng.Valid() && mng.startFlag == 1 && mng.queue == seq(accepted, _ => m)
      invariant accepted <= capacity
      decreases capacity - accepted
    {
      var ok := AddOneMore(mng, m, accepted);
      if !ok {
        return;
      }
      accepted := accepted + 1;
    }
  }

  /** One call of AddUntilRefused: with k copies of m queued, the record is taken exactly when k < size / R. */
  method AddOneMore(mng: ThreadPoolManager, m: Msg, k: nat) returns (ok: bool)
    requires mng.Valid() && mng.startFlag == 1 && mng.queue == seq(k, _ => m)
    requires Fits(m, mng.wordBytes) && m.cb != 0 && m.arg != 0
    modifies mng`queue, mng`pubBytes, mng.fifo`inCursor, mng.fifo.buffer
    ensures mng.Valid() && mng.fifo.size == old(mng.fifo.size)
    ensures ok == (k < mng.fifo.size / mng.R())
    ensures mng.queue == seq(if ok then k + 1 else k, _ => m)
  {
    var r := mng.R();
    assert |mng.queue| == k;
    AdmittedBelowCapacity(mng.fifo.size, r, k);
    var ret := mng.AddWork(m);
    ok := ret == 0;
    if ok {
      assert seq(k + 1, _ => m) == seq(k, _ => m) + [m];
    }
  }

  /**
   * z_thpool_exit followed by z_thpool_add_work: whatever the start did, the
   * stopped manager is all zero and refuses the work.
   */
  method AddAfterExit(w: PtrWidth, config: Config, allocOk: bool, spawn: nat -> i32, m: Msg) returns (ret: i32)
    requires Fits(m, w)
    ensures ret == -1
  {
    var mng := new ThreadPoolManager(w);
    var started := mng.Start(config, allocOk, spawn);
    mng.Exit();
    ret := mng.AddWork(m);
  }

  /** The records of z_thpool_test's tasks: callback cb, argument &task_args[j] for j from `from` on. */
  function TaskRecords(cb: nat, argBase: nat, from: nat, count: nat): seq<Msg>
  {
    seq(count, j requires 0 <= j < count => Msg(cb, argBase + 4 * (from + j)))
  }

  /**
   * The add loop of z_thpool_test: `count` calls of z_thpool_add_work, the
   * i-th with argument &task_args[i] (4-byte ints from argBase on). A started
   * pool with room for them takes every one, in order; a stopped pool none.
   */
  method AddTasks(mng: ThreadPoolManager, cb: nat, argBase: nat, count: u32) returns (added: nat)
    requires mng.Valid()
    requires 0 < cb < WordLimit(mng.wordBytes) && 0 < argBase && argBase + 4 * count < WordLimit(mng.wordBytes)
    requires mng.startFlag == 1 ==> |mng.queue| + count <= mng.fifo.size / mng.R()
    modifies mng`queue, mng`pubBytes, mng.fifo`inCursor, mng.fifo.buffer
    ensures mng.Valid()
    ensures added == if mng.startFlag == 1 then count else 0
    ensures mng.startFlag == 1 ==> mng.queue == old(mng.queue) + TaskRecords(cb, argBase, 0, count)
    ensures mng.startFlag != 1 ==> mng.queue == old(mng.queue)
  {
    ghost var q0 := mng.queue;
    ghost var started := mng.startFlag == 1;
    var i: u32 := 0;
    added := 0;
    while i < count
      invariant i <= count && mng.Valid()
      invariant added == if started then i else 0
      invariant mng.queue == q0 + if started then TaskRecords(cb, argBase, 0, i) else []
    {
      var m := Msg(cb, argBase + 4 * i);
      assert Fits(m, mng.wordBytes);
      ghost var before := mng.queue;
      var ok := AddTask(mng, m);
      if ok {
        added := added + 1;
        TaskRecordsSnoc(cb, argBase, i);
        assert mng.queue == q0 + TaskRecords(cb, argBase, 0, i + 1) by {
          assert before == q0 + TaskRecords(cb, argBase, 0, i);
        }
      }
      i := i + 1;
    }
    assert !started ==> q0 + [] == q0;
  }

  /** The records of the first i + 1 tasks extend those of the first i by the i-th. */
  lemma TaskRecordsSnoc(cb: nat, argBase: nat, i: nat)
    ensures TaskRecords(cb, argBase, 0, i + 1) == TaskRecords(cb, argBase, 0, i) + [Msg(cb, argBase + 4 * i)]
  {
    var q, q' := TaskRecords(cb, argBase, 0, i), TaskRecords(cb, argBase, 0, i + 1);
    assert forall j :: 0 <= j < i ==> q'[j] == q[j];
  }

  /** One z_thpool_add_work call of z_thpool_test: a started pool below capacity takes the record. */
  method AddTask(mng: ThreadPoolManager, m: Msg) returns (ok: bool)
    requires mng.Valid() && Fits(m, mng.wordBytes) && m.cb != 0 && m.arg != 0
    requires mng.startFlag == 1 ==> |mng.queue| < mng.fifo.size / mng.R()
    modifies mng`queue, mng`pubBytes, mng.fifo`inCursor, mng.fifo.buffer
    ensures mng.Valid() && ok == (mng.startFlag == 1)
    ensures mng.queue == if ok then old(mng.queue) + [m] else old(mng.queue)
  {
    if mng.startFlag == 1 {
      var r := mng.R();
      var k := |mng.queue|;
      assert mng.fifo.DataLen() == k * r;
      AdmittedBelowCapacity(mng.fifo.size, r, k);
    }
    var ret := mng.AddWork(m);
    ok := ret == 0;
  }

  /**
   * z_thpool_test without the waiting and printing: a fresh pool is started
   * with {100 threads, 100 records, 64 KiB stacks}, 100 tasks are added and
   * the pool is stopped. Every task is taken exactly when the start succeeds,
   * because the queue rounds up to 128 records; the test returns 0 either way.
   */
  method ThpoolTest(w: PtrWidth, allocOk: bool, spawn: nat -> i32, cb: nat, argBase: nat) returns (r: i32, added: nat)
    requires 0 < cb < WordLimit(w) && 0 < argBase && argBase + 400 < WordLimit(w)
    ensures r == 0
    ensures added == if allocOk && FirstFailure(spawn, 0, 100) == 100 then 100 else 0
  {
    var mng := new ThreadPoolManager(w);
    var config := Config(100, 100, 64 * 1024);
    var started := mng.Start(config, allocOk, spawn);
    var tasks := mng.msgNodeMax;
    assert tasks == 100;
    if mng.startFlag == 1 {
      TestCapacity(w);
    }
    added := AddTasks(mng, cb, argBase, tasks);
    mng.Exit();
    return 0, added;
  }

  /** Decrementing after incrementing a uint32_t gives back the value. */
  lemma WrapUndoesIncrement(x: u32)
    ensures Wrap(Wrap(x + 1) - 1) == x
  {
    if x + 1 < U32_LIMIT {
      WrapInRange(x + 1);
      WrapInRange(x);
    } else {
      DivModUnique(x + 1, U32_LIMIT, 1, 0);
      DivModUnique(-1, U32_LIMIT, -1, x);
    }
  }
}
