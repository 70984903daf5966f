/** The size arithmetic of src/o2mem.cpp on a 64-bit machine without memory
    debugging: which free list serves a request, and how big its blocks are. */
module SizeClasses {

  const LOG2_MAX_LINEAR_BYTES := 9
  const MAX_LINEAR_BYTES := 512
  const LOG2_MAX_EXPONENTIAL_BYTES := 25
  const CHUNK_SIZE := 8192
  /** The size word in front of the payload; also the size of a pointer. */
  const WORD := 8

  datatype SizeClass =
    | Linear(i: nat)        // blocks of 16 i + 8 bytes
    | Exponential(j: nat)   // blocks of 2^(9 + j) + 8 bytes
    | TooBig                // no free list

  function Pow2(k: nat): (p: nat)
    ensures p > 0
  {
    if k == 0 then 1 else 2 * Pow2(k - 1)
  }

  /** `SIZE_REQUEST_TO_ACTUAL`: an odd number of 8-byte words. */
  function ActualSize(request: nat): nat {
    (request + 7) / 16 * 16 + 8
  }

  /** `SIZE_TO_REALSIZE`: payload and size word. */
  function RealSize(size: nat): nat {
    WORD + size
  }

  /** The first exponent from `log` on that is enough for `size`, or 25. */
  function Exponent(size: nat, log: nat): (e: nat)
    ensures log <= e
    ensures e > LOG2_MAX_EXPONENTIAL_BYTES ==> e == log
    decreases LOG2_MAX_EXPONENTIAL_BYTES - log, size
  {
    if log < LOG2_MAX_EXPONENTIAL_BYTES && size > Pow2(log) then Exponent(size, log + 1) else log
  }

  /** `head_ptr_for_size`: the list for a request and the size it hands out. */
  function ClassFor(request: nat): SizeClass {
    var actual := ActualSize(request);
    if actual / 16 < MAX_LINEAR_BYTES / 16 then Linear(actual / 16)
    else
      var log := Exponent(actual - 8, LOG2_MAX_LINEAR_BYTES);
      if log < LOG2_MAX_EXPONENTIAL_BYTES then Exponential(log - LOG2_MAX_LINEAR_BYTES) else TooBig
  }

  function BlockSize(request: nat): nat {
    var actual := ActualSize(request);
    if actual / 16 < MAX_LINEAR_BYTES / 16 then actual
    else
      var log := Exponent(actual - 8, LOG2_MAX_LINEAR_BYTES);
      if log < LOG2_MAX_EXPONENTIAL_BYTES then Pow2(log) + 8 else actual
  }

  predicate IsList(c: SizeClass) {
    match c
    case Linear(i) => i < MAX_LINEAR_BYTES / 16
    case Exponential(j) => j < LOG2_MAX_EXPONENTIAL_BYTES - LOG2_MAX_LINEAR_BYTES
    case TooBig => false
  }

  /** The block size of a free list. */
  function ListSize(c: SizeClass): nat
    requires IsList(c)
  {
    match c
    case Linear(i) => 16 * i + 8
    case Exponential(j) => Pow2(LOG2_MAX_LINEAR_BYTES + j) + 8
  }

  lemma {:induction false} Pow2Monotone(a: nat, b: nat)
    requires a <= b
    ensures Pow2(a) <= Pow2(b)
    decreases b
  {
    if a < b { Pow2Monotone(a, b - 1); }
  }

  lemma Pow2Values()
    ensures Pow2(9) == 512 && Pow2(12) == 4096 && Pow2(13) == 8192
  {
    assert Pow2(9) == 2 * Pow2(8) == 4 * Pow2(7) == 8 * Pow2(6) == 16 * Pow2(5);
    assert Pow2(13) == 2 * Pow2(12) == 4 * Pow2(11) == 8 * Pow2(10) == 16 * Pow2(9);
  }

  lemma {:induction false} Pow2Of(k: nat)
    requires 9 <= k
    ensures Pow2(k) >= 512 && Pow2(k) % 16 == 0
    decreases k
  {
    Pow2Values();
    if k > 9 { Pow2Of(k - 1); }
  }

  lemma {:induction false} ExponentIsLeast(size: nat, log: nat)
    requires LOG2_MAX_LINEAR_BYTES <= log <= LOG2_MAX_EXPONENTIAL_BYTES
    ensures log <= Exponent(size, log) <= LOG2_MAX_EXPONENTIAL_BYTES
    ensures Exponent(size, log) < LOG2_MAX_EXPONENTIAL_BYTES ==> size <= Pow2(Exponent(size, log))
    ensures forall k :: log <= k < Exponent(size, log) ==> Pow2(k) < size
    decreases LOG2_MAX_EXPONENTIAL_BYTES - log
  {
    if log < LOG2_MAX_EXPONENTIAL_BYTES && size > Pow2(log) {
      ExponentIsLeast(size, log + 1);
    }
  }

  /** A block is at least as large as the request, leaves the next block's
      payload aligned, and has exactly the size of the list it belongs to. */
  lemma BlockSizeFits(request: nat)
    ensures request <= BlockSize(request)
    ensures BlockSize(request) % 16 == 8
    ensures ClassFor(request) != TooBig ==>
              IsList(ClassFor(request)) && BlockSize(request) == ListSize(ClassFor(request))
  {
    hide Pow2, Exponent;
    var actual := ActualSize(request);
    ActualSizeShape(request);
    if actual / 16 >= MAX_LINEAR_BYTES / 16 {
      var log := Exponent(actual - 8, LOG2_MAX_LINEAR_BYTES);
      ExponentIsLeast(actual - 8, LOG2_MAX_LINEAR_BYTES);
      Pow2Of(log);
    }
  }

  lemma ActualSizeShape(request: nat)
    ensures request <= ActualSize(request) && ActualSize(request) % 16 == 8
    ensures ActualSize(request) == 16 * (ActualSize(request) / 16) + 8
  {
  }

  /** Of all the lists whose blocks could serve a request, the one chosen has
      the smallest blocks; and a request has no list only when none could
      serve it. */
  lemma ClassIsBestFit(request: nat, c: SizeClass)
    requires IsList(c) && request <= ListSize(c)
    ensures IsList(ClassFor(request)) && ListSize(ClassFor(request)) <= ListSize(c)
  {
    hide Pow2, Exponent;
    var actual := ActualSize(request);
    BlockSizeFits(request);
    ListSizeShape(c);
    assert actual <= ListSize(c) by {
      assert (request + 7) / 16 * 16 <= request + 7;
      ActualIsLeast(request, ListSize(c));
    }
    if actual / 16 >= MAX_LINEAR_BYTES / 16 {
      assert c.Exponential?;
      var log := Exponent(actual - 8, LOG2_MAX_LINEAR_BYTES);
      var k := LOG2_MAX_LINEAR_BYTES + c.j;
      ExponentIsLeast(actual - 8, LOG2_MAX_LINEAR_BYTES);
      assert actual - 8 <= Pow2(k);
      assert log <= k;
      Pow2Monotone(log, k);
    }
  }

  lemma ActualIsLeast(request: nat, size: nat)
    requires size % 16 == 8 && request <= size
    ensures ActualSize(request) <= size
  {
    var q := size / 16;
    assert size == 16 * q + 8;
    assert request + 7 < 16 * (q + 1);
    assert (request + 7) / 16 <= q;
  }

  lemma ListSizeShape(c: SizeClass)
    requires IsList(c)
    ensures ListSize(c) % 16 == 8
    ensures c.Linear? ==> ListSize(c) < 512
    ensures c.Exponential? ==> ListSize(c) >= 520
  {
    hide Pow2;
    if c.Exponential? { Pow2Of(LOG2_MAX_LINEAR_BYTES + c.j); }
  }

  /** `head_ptr_for_size` leaves a block size alone: a freed block, looked up by
      the size in its size word, goes to the list it was allocated for. */
  lemma BlockSizeIdempotent(request: nat)
    ensures BlockSize(BlockSize(request)) == BlockSize(request)
    ensures ClassFor(BlockSize(request)) == ClassFor(request)
  {
    hide Pow2, Exponent;
    var actual := ActualSize(request);
    ActualSizeShape(request);
    ActualOfOdd(actual);
    if actual / 16 >= MAX_LINEAR_BYTES / 16 {
      var log := Exponent(actual - 8, LOG2_MAX_LINEAR_BYTES);
      ExponentIsLeast(actual - 8, LOG2_MAX_LINEAR_BYTES);
      Pow2Of(log);
      ActualOfOdd(Pow2(log) + 8);
      if log < LOG2_MAX_EXPONENTIAL_BYTES { ExponentOfPower(log); }
    }
  }

  lemma ActualOfOdd(size: nat)
    requires size % 16 == 8
    ensures ActualSize(size) == size
  {
  }

  lemma ExponentOfPower(log: nat)
    requires LOG2_MAX_LINEAR_BYTES <= log < LOG2_MAX_EXPONENTIAL_BYTES
    ensures Exponent(Pow2(log), LOG2_MAX_LINEAR_BYTES) == log
  {
    hide Exponent;
    var e := Exponent(Pow2(log), LOG2_MAX_LINEAR_BYTES);
    ExponentIsLeast(Pow2(log), LOG2_MAX_LINEAR_BYTES);
    if e < log {
      Pow2Monotone(e, log - 1);
    }
  }

  /** Two lists never have blocks of the same size. */
  lemma ListSizesDiffer(c: SizeClass, d: SizeClass)
    requires IsList(c) && IsList(d) && ListSize(c) == ListSize(d)
    ensures c == d
  {
    ListSizeShape(c);
    ListSizeShape(d);
    if c.Exponential? && d.Exponential? {
      if c.j < d.j { Pow2Monotone(LOG2_MAX_LINEAR_BYTES + c.j, LOG2_MAX_LINEAR_BYTES + d.j - 1); }
      if d.j < c.j { Pow2Monotone(LOG2_MAX_LINEAR_BYTES + d.j, LOG2_MAX_LINEAR_BYTES + c.j - 1); }
    }
  }

  lemma ChunkIsPow2(k: nat)
    ensures k <= 12 ==> Pow2(k) <= 4096
    ensures k >= 13 ==> Pow2(k) >= 8192
  {
    Pow2Values();
    if k <= 12 { Pow2Monotone(k, 12); } else { Pow2Monotone(13, k); }
  }

  /** A class block that is not refused a chunk fits in a fresh one, past the
      chunk's link word. */
  lemma FitsInFreshChunk(request: nat)
    requires ClassFor(request) != TooBig && RealSize(BlockSize(request)) <= CHUNK_SIZE
    ensures RealSize(BlockSize(request)) <= CHUNK_SIZE - WORD
    ensures RealSize(BlockSize(request)) % 16 == 0
  {
    hide Pow2, Exponent, ClassFor, BlockSize;
    BlockSizeFits(request);
    var c := ClassFor(request);
    ListSizeShape(c);
    if c.Exponential? {
      ChunkIsPow2(LOG2_MAX_LINEAR_BYTES + c.j);
    }
  }

  /** `power_of_2_block_size`. */
  method PowerOf2BlockSize(size: nat) returns (log: nat)
    ensures log == Exponent(size, LOG2_MAX_LINEAR_BYTES)
    ensures LOG2_MAX_LINEAR_BYTES <= log <= LOG2_MAX_EXPONENTIAL_BYTES
  {
    log := LOG2_MAX_LINEAR_BYTES;
    while log < LOG2_MAX_EXPONENTIAL_BYTES && size > Pow2(log)
      invariant LOG2_MAX_LINEAR_BYTES <= log <= LOG2_MAX_EXPONENTIAL_BYTES
      invariant Exponent(size, log) == Exponent(size, LOG2_MAX_LINEAR_BYTES)
    {
      log := log + 1;
    }
  }

  /** `head_ptr_for_size`. */
  method HeadForSize(request: nat) returns (c: SizeClass, size: nat)
    ensures c == ClassFor(request) && size == BlockSize(request)
  {
    size := ActualSize(request);
    var index := size / 16;
    if index < MAX_LINEAR_BYTES / 16 {
      return Linear(index), size;
    }
    var log := PowerOf2BlockSize(size - 8);
    if log < LOG2_MAX_EXPONENTIAL_BYTES {
      return Exponential(log - LOG2_MAX_LINEAR_BYTES), Pow2(log) + 8;
    }
    c := TooBig;
  }
}
