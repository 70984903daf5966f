/** The real-time allocator of src/o2mem.cpp on a 64-bit machine without memory
    debugging.  Addresses are naturals; 0 is NULL.  A block is named by the
    address of its payload, with its size word 8 bytes below. */
module Allocator {
  import opened SizeClasses

  /** A piece of memory obtained from the system, starting with a link word. */
  datatype Chunk = Chunk(base: nat, len: nat)

  /** Everything carved so far (`size` is the size word of each block) and the
      free space that is left at the end of the current chunk. */
  datatype Layout = Layout(chunks: set<Chunk>, size: map<nat, nat>, next: nat, remaining: nat)

  // ---------------------------------------------------------------------
  // Geometry
  // ---------------------------------------------------------------------

  predicate Apart(a: int, aEnd: int, b: int, bEnd: int) {
    aEnd <= b || bEnd <= a
  }

  /** The block at `p`, with its size word, is apart from [a, aEnd). */
  predicate BlockApart(p: int, size: int, a: int, aEnd: int) {
    Apart(p - WORD, p + size, a, aEnd)
  }

  predicate Aligned(a: int) {
    a % 16 == 0
  }

  /** The block at `p` lies in `c`, past the link word. */
  predicate Inside(c: Chunk, p: nat, size: nat) {
    c.base + WORD + WORD <= p && p + size <= c.base + c.len
  }

  /** The current chunk: `remaining` free bytes up to its end. */
  predicate IsCurrent(l: Layout, c: Chunk) {
    c.len == CHUNK_SIZE && c.base + WORD <= l.next && l.next + l.remaining == c.base + c.len
  }

  ghost predicate ChunksOk(chunks: set<Chunk>) {
    && (forall c :: c in chunks ==> c.base > 0 && Aligned(c.base))
    && (forall c, d :: c in chunks && d in chunks && c != d ==>
          Apart(c.base, c.base + c.len, d.base, d.base + d.len))
  }

  ghost predicate BlocksAligned(l: Layout) {
    forall p :: p in l.size ==> p > 0 && Aligned(p) && Aligned(p + l.size[p] - WORD)
  }

  ghost predicate BlocksInChunks(l: Layout) {
    forall p :: p in l.size ==> exists c :: c in l.chunks && Inside(c, p, l.size[p])
  }

  ghost predicate BlocksApart(l: Layout) {
    forall p, q :: p in l.size && q in l.size && p != q ==>
      BlockApart(p, l.size[p], q - WORD, q + l.size[q])
  }

  ghost predicate SpaceOk(l: Layout) {
    l.remaining > 0 ==>
      && Aligned(l.next + WORD)
      && (exists c :: c in l.chunks && IsCurrent(l, c))
      && (forall p :: p in l.size ==> BlockApart(p, l.size[p], l.next, l.next + l.remaining))
  }

  ghost predicate Good(l: Layout) {
    && ChunksOk(l.chunks)
    && BlocksAligned(l)
    && BlocksInChunks(l)
    && BlocksApart(l)
    && SpaceOk(l)
  }

  /** What the system promises of memory it grants: 16-byte aligned, and apart
      from everything granted before. */
  ghost predicate Granted(l: Layout, base: nat, len: nat) {
    && base > 0 && Aligned(base)
    && forall c :: c in l.chunks ==> Apart(base, base + len, c.base, c.base + c.len)
  }

  // ---------------------------------------------------------------------
  // The three ways memory is laid out
  // ---------------------------------------------------------------------

  /** `malloc_one_object`: a chunk for one block. */
  function WithOneObject(l: Layout, base: nat, size: nat): Layout {
    l.(chunks := l.chunks + {Chunk(base, WORD + RealSize(size))},
       size := l.size[base + 2 * WORD := size])
  }

  /** A fresh chunk replaces what is left of the current one. */
  function WithChunk(l: Layout, base: nat): Layout {
    l.(chunks := l.chunks + {Chunk(base, CHUNK_SIZE)},
       next := base + WORD, remaining := CHUNK_SIZE - WORD)
  }

  /** A block is cut from the front of the free space. */
  function WithBlock(l: Layout, size: nat): Layout
    requires RealSize(size) <= l.remaining
  {
    l.(size := l.size[l.next + WORD := size],
       next := l.next + RealSize(size), remaining := l.remaining - RealSize(size))
  }

  lemma GrantedIsApartFromBlocks(l: Layout, base: nat, len: nat, p: nat)
    requires Good(l) && Granted(l, base, len) && p in l.size
    ensures BlockApart(p, l.size[p], base, base + len)
  {
    var c :| c in l.chunks && Inside(c, p, l.size[p]);
  }

  lemma NewBlockIsApart(l: Layout, base: nat, size: nat)
    requires Good(l) && Granted(l, base, WORD + RealSize(size))
    ensures var b := base + 2 * WORD;
            && Aligned(b) && b > 0
            && forall p :: p in l.size ==> p != b && BlockApart(p, l.size[p], b - WORD, b + size)
  {
    GrantedFacts(l, base, WORD + RealSize(size));
    hide Good, Granted;
    forall p | p in l.size
      ensures p != base + 2 * WORD && BlockApart(p, l.size[p], base + 2 * WORD - WORD, base + 2 * WORD + size)
    {
      GrantedIsApartFromBlocks(l, base, WORD + RealSize(size), p);
    }
  }

  lemma BlockFacts(l: Layout)
    requires Good(l)
    ensures forall p :: p in l.size ==> p != 0 && Aligned(p)
  {
  }

  lemma GrantedIsApartFromSpace(l: Layout, base: nat, len: nat)
    requires Good(l) && Granted(l, base, len) && l.remaining > 0
    ensures Apart(base, base + len, l.next, l.next + l.remaining)
  {
    var c :| c in l.chunks && IsCurrent(l, c);
  }

  lemma ChunksOkAppend(l: Layout, base: nat, len: nat)
    requires ChunksOk(l.chunks) && Granted(l, base, len)
    ensures ChunksOk(l.chunks + {Chunk(base, len)})
  {
  }

  /** More chunks and one more block, inside one of them. */
  lemma BlocksStayInChunks(l: Layout, l': Layout, b: nat, c: Chunk)
    requires BlocksInChunks(l)
    requires (forall d :: d in l.chunks ==> d in l'.chunks) && c in l'.chunks
    requires forall p :: p in l'.size && p != b ==> p in l.size && l'.size[p] == l.size[p]
    requires b in l'.size ==> Inside(c, b, l'.size[b])
    ensures BlocksInChunks(l')
  {
    forall p | p in l'.size ensures exists d :: d in l'.chunks && Inside(d, p, l'.size[p]) {
      if p == b {
        assert Inside(c, p, l'.size[p]);
      } else {
        var d :| d in l.chunks && Inside(d, p, l.size[p]);
        assert d in l'.chunks;
      }
    }
  }

  lemma BlocksStayApart(l: Layout, l': Layout, b: nat, size: nat)
    requires BlocksApart(l) && l'.size == l.size[b := size]
    requires forall p :: p in l.size ==> p != b && BlockApart(p, l.size[p], b - WORD, b + size)
    ensures BlocksApart(l')
  {
    forall p, q | p in l'.size && q in l'.size && p != q
      ensures BlockApart(p, l'.size[p], q - WORD, q + l'.size[q])
    {
      if p == b {
        assert BlockApart(q, l.size[q], b - WORD, b + size);
      } else if q == b {
        assert BlockApart(p, l.size[p], b - WORD, b + size);
      } else {
        assert BlockApart(p, l.size[p], q - WORD, q + l.size[q]);
      }
    }
  }

  lemma BlocksStayAligned(l: Layout, l': Layout, b: nat, size: nat)
    requires BlocksAligned(l) && l'.size == l.size[b := size]
    requires b > 0 && Aligned(b) && Aligned(size - WORD)
    ensures BlocksAligned(l')
  {
  }

  lemma OneObjectIsGood(l: Layout, base: nat, size: nat)
    requires Good(l) && Aligned(size - WORD) && Granted(l, base, WORD + RealSize(size))
    ensures Good(WithOneObject(l, base, size))
    ensures base + 2 * WORD !in l.size && Aligned(base + 2 * WORD)
  {
    hide SpaceOk, BlocksInChunks, BlocksAligned, BlocksApart, BlockApart, Granted;
    var l' := WithOneObject(l, base, size);
    var b := base + 2 * WORD;
    var mine := Chunk(base, WORD + RealSize(size));
    ChunksOkAppend(l, base, WORD + RealSize(size));
    NewBlockIsApart(l, base, size);
    BlocksStayInChunks(l, l', b, mine);
    BlocksStayAligned(l, l', b, size);
    BlocksStayApart(l, l', b, size);
    OneObjectLeavesSpace(l, base, size);
  }

  lemma OneObjectLeavesSpace(l: Layout, base: nat, size: nat)
    requires Good(l) && Granted(l, base, WORD + RealSize(size))
    ensures SpaceOk(WithOneObject(l, base, size))
  {
    var l' := WithOneObject(l, base, size);
    if l.remaining > 0 {
      GrantedIsApartFromSpace(l, base, WORD + RealSize(size));
      var c :| c in l.chunks && IsCurrent(l, c);
      assert c in l'.chunks && IsCurrent(l', c);
    }
  }

  lemma ChunkIsGood(l: Layout, base: nat)
    requires Good(l) && Granted(l, base, CHUNK_SIZE)
    ensures Good(WithChunk(l, base))
  {
    var mine := Chunk(base, CHUNK_SIZE);
    ChunksOkAppend(l, base, CHUNK_SIZE);
    ChunkIsSpace(l, base);
    hide SpaceOk, ChunksOk, BlocksAligned, BlocksApart, Inside, Granted;
    BlocksStayInChunks(l, WithChunk(l, base), 0, mine);
    SameBlocks(l, WithChunk(l, base));
  }

  lemma SameBlocks(l: Layout, l': Layout)
    requires l'.size == l.size && BlocksAligned(l) && BlocksApart(l)
    ensures BlocksAligned(l') && BlocksApart(l')
  {
  }

  lemma ChunkIsSpace(l: Layout, base: nat)
    requires Good(l) && Granted(l, base, CHUNK_SIZE)
    ensures SpaceOk(WithChunk(l, base))
  {
    hide Good, Granted;
    var l' := WithChunk(l, base);
    var mine := Chunk(base, CHUNK_SIZE);
    GrantedFacts(l, base, CHUNK_SIZE);
    forall p | p in l.size ensures BlockApart(p, l.size[p], base + WORD, base + CHUNK_SIZE) {
      GrantedIsApartFromBlocks(l, base, CHUNK_SIZE, p);
    }
    assert mine in l'.chunks && IsCurrent(l', mine);
  }

  lemma GrantedFacts(l: Layout, base: nat, len: nat)
    requires Granted(l, base, len)
    ensures base > 0 && Aligned(base)
  {
  }

  /** Carving never overruns the chunk and never touches a block. */
  lemma BlockIsGood(l: Layout, size: nat)
    requires Good(l) && Aligned(size - WORD) && RealSize(size) <= l.remaining
    ensures Good(WithBlock(l, size))
    ensures l.next + WORD !in l.size && Aligned(l.next + WORD)
  {
    var l' := WithBlock(l, size);
    var b := l.next + WORD;
    var c :| c in l.chunks && IsCurrent(l, c);
    forall p | p in l.size
      ensures p != b && BlockApart(p, l.size[p], b - WORD, b + size)
    {
      assert BlockApart(p, l.size[p], l.next, l.next + l.remaining);
    }
    BlocksStayInChunks(l, l', b, c);
    BlocksStayAligned(l, l', b, size);
    BlocksStayApart(l, l', b, size);
    BlockLeavesSpace(l, size);
  }

  lemma BlockLeavesSpace(l: Layout, size: nat)
    requires Good(l) && Aligned(size - WORD) && RealSize(size) <= l.remaining
    ensures SpaceOk(WithBlock(l, size))
  {
    var l' := WithBlock(l, size);
    var c :| c in l.chunks && IsCurrent(l, c);
    assert c in l'.chunks && IsCurrent(l', c);
    forall p | p in l'.size ensures BlockApart(p, l'.size[p], l'.next, l'.next + l'.remaining) {
      if p != l.next + WORD { assert BlockApart(p, l.size[p], l.next, l.next + l.remaining); }
    }
  }

  lemma NoSpaceIsGood(l: Layout)
    requires Good(l)
    ensures Good(l.(next := 0, remaining := 0))
  {
  }

  /** The free space is a multiple of 16 bytes and one word. */
  lemma SpaceShape(l: Layout)
    requires Good(l) && l.remaining > 0
    ensures l.remaining % 16 == 8
  {
    var c :| c in l.chunks && IsCurrent(l, c);
  }

  // ---------------------------------------------------------------------
  // Accounting
  // ---------------------------------------------------------------------

  /** Real bytes of a set of blocks. */
  ghost function Bytes(ps: set<nat>, size: map<nat, nat>): nat
    requires ps <= size.Keys
  {
    if ps == {} then 0
    else
      var p := Pick(ps);
      RealSize(size[p]) + Bytes(ps - {p}, size)
  }

  ghost function Pick(ps: set<nat>): (p: nat)
    requires ps != {}
    ensures p in ps
  {
    var p :| p in ps; p
  }

  lemma {:induction false} BytesWithout(ps: set<nat>, size: map<nat, nat>, q: nat)
    requires ps <= size.Keys && q in ps
    ensures Bytes(ps, size) == RealSize(size[q]) + Bytes(ps - {q}, size)
    decreases ps
  {
    var p := Pick(ps);
    if p != q {
      BytesWithout(ps - {p}, size, q);
      BytesWithout(ps - {q}, size, p);
      assert ps - {p} - {q} == ps - {q} - {p};
    }
  }

  lemma {:induction false} BytesFrame(ps: set<nat>, size: map<nat, nat>, size': map<nat, nat>)
    requires ps <= size.Keys && ps <= size'.Keys && forall p :: p in ps ==> size[p] == size'[p]
    ensures Bytes(ps, size) == Bytes(ps, size')
    decreases ps
  {
    if ps != {} {
      BytesFrame(ps - {Pick(ps)}, size, size');
    }
  }

  // ---------------------------------------------------------------------
  // The allocator
  // ---------------------------------------------------------------------

  class Allocator {
    const mallocOk: bool
    var layout: Layout
    var lists: map<SizeClass, seq<nat>>
    var total: nat
    /** Blocks the program holds that came from a list or could go to one. */
    ghost var live: set<nat>
    /** Blocks the program holds that are too big for any list. */
    ghost var huge: set<nat>
    /** Huge blocks given back: they wait for shutdown. */
    ghost var retired: set<nat>
    /** Bytes left behind at the end of each chunk that was replaced. */
    ghost var abandoned: seq<nat>

    ghost predicate ListsOk()
      reads this
    {
      && (forall c :: c in lists <==> IsList(c))
      && (forall c, i :: c in lists && 0 <= i < |lists[c]| ==>
            lists[c][i] in layout.size && layout.size[lists[c][i]] == ListSize(c))
      && (forall c, i, j :: c in lists && 0 <= i < j < |lists[c]| ==> lists[c][i] != lists[c][j])
    }

    /** Every block but those in `loose` is in exactly one place: held, held
        and huge, retired, or on the list for its size. */
    ghost predicate PlacesOk(loose: set<nat>)
      reads this
    {
      && live <= layout.size.Keys && huge <= layout.size.Keys && retired <= layout.size.Keys
      && live !! huge && live !! retired && huge !! retired
      && loose !! live && loose !! huge && loose !! retired
      && (forall p :: p in live ==> BlockSize(layout.size[p]) == layout.size[p] && ClassFor(layout.size[p]) != TooBig)
      && (forall p :: p in huge ==> BlockSize(layout.size[p]) == layout.size[p] && ClassFor(layout.size[p]) == TooBig)
      && (forall c, i :: c in lists && 0 <= i < |lists[c]| ==>
            lists[c][i] !in live && lists[c][i] !in huge && lists[c][i] !in retired && lists[c][i] !in loose)
      && (forall p :: p in layout.size && p !in live && p !in huge && p !in retired && p !in loose ==>
            exists c :: c in lists && p in lists[c])
    }

    ghost predicate ValidBut(loose: set<nat>)
      reads this
    {
      && Good(layout)
      && ListsOk()
      && PlacesOk(loose)
      && total == Bytes(live, layout.size)
      && forall i :: 0 <= i < |abandoned| ==> abandoned[i] <= 504
    }

    ghost predicate Valid()
      reads this
    {
      ValidBut({})
    }

    constructor (mallocOk: bool)
      ensures Valid() && live == {} && huge == {} && this.mallocOk == mallocOk
    {
      this.mallocOk := mallocOk;
      layout := Layout({}, map[], 0, 0);
      lists := map c | c in AllLists() :: [];
      total := 0;
      live, huge, retired, abandoned := {}, {}, {}, [];
    }

    static function AllLists(): (cs: set<SizeClass>)
      ensures forall c :: c in cs <==> IsList(c)
    {
      (set i: nat | i < MAX_LINEAR_BYTES / 16 :: Linear(i)) +
      (set j: nat | j < LOG2_MAX_EXPONENTIAL_BYTES - LOG2_MAX_LINEAR_BYTES :: Exponential(j))
    }

    /** What a block given out by `o2_malloc` is. */
    ghost predicate Allocated(p: nat, request: nat)
      reads this
    {
      && p in layout.size && Aligned(p) && request <= layout.size[p]
      && layout.size[p] == BlockSize(request)
      && (if ClassFor(request) == TooBig then p in huge else p in live)
    }

    /** Does a block of this size that is not reused come as one object from the
        system? */
    predicate ComesAlone(l: Layout, size: nat) {
      var whole := RealSize(size);
      whole > CHUNK_SIZE ||
      (l.remaining < whole && mallocOk && whole >= MAX_LINEAR_BYTES && l.remaining > MAX_LINEAR_BYTES)
    }

    /** `o2_malloc`.  The result of the system is not looked at when a single
        object is wanted: then NULL is written to, and the program crashes. */
    method Malloc(request: nat, system: nat -> nat) returns (p: nat, crashed: bool)
      requires Valid()
      requires forall n :: system(n) != 0 ==> Granted(layout, system(n), n)
      modifies this
      ensures Valid()
      ensures var c, size := ClassFor(request), BlockSize(request);
              crashed <==>
                && (if c == TooBig then mallocOk else old(lists)[c] == [] && ComesAlone(old(layout), size))
                && system(WORD + RealSize(size)) == 0
      ensures crashed ==> p == 0 && layout == old(layout) && lists == old(lists)
      ensures p == 0 ==> live == old(live) && huge == old(huge) && layout.size == old(layout.size)
      ensures p != 0 ==> Allocated(p, request) && p !in old(live) && p !in old(huge)
      ensures p != 0 ==> live + huge == old(live) + old(huge) + {p}
      ensures p == 0 && !crashed ==> !mallocOk || system(CHUNK_SIZE) == 0
      ensures forall q :: q in old(layout.size) ==> q in layout.size && layout.size[q] == old(layout.size[q])
      ensures var c := ClassFor(request);
              c in old(lists) && old(lists)[c] != [] ==>
                p == old(lists)[c][0] && layout == old(layout) && lists[c] == old(lists)[c][1..]
      ensures var c := ClassFor(request);
              p != 0 && c in old(lists) && old(lists)[c] == [] ==>
                lists == old(lists) && TakenFrom(old(layout), old(abandoned), BlockSize(request), system)
      ensures var c, whole := ClassFor(request), RealSize(BlockSize(request));
              p != 0 && c in old(lists) && old(lists)[c] == [] && whole <= CHUNK_SIZE ==>
                && (whole <= old(layout).remaining ==> layout.chunks == old(layout).chunks)
                && (whole > old(layout).remaining && (whole < 512 || old(layout).remaining <= 512) ==>
                     && layout.chunks == old(layout).chunks + {Chunk(system(CHUNK_SIZE), CHUNK_SIZE)}
                     && layout.remaining == CHUNK_SIZE - WORD - whole)
                && (whole >= 512 && whole > old(layout).remaining > 512 ==>
                     layout.next == old(layout).next && layout.remaining == old(layout).remaining)
    {
      hide Good, Granted, BlockSize, ClassFor, TakenFrom, ComesAlone, RealSize, PlacesOk, ListSize;
      crashed := false;
      var c, size := HeadForSize(request);
      BlockSizeFits(request);
      BlockSizeIdempotent(request);
      var realsize := RealSize(size);
      if c == TooBig {
        if mallocOk {
          p, crashed := MallocOneObject(size, system(WORD + realsize));
          if !crashed {
            HandOutHuge(p);
          }
        } else {
          p := 0;
        }
        return;
      }
      if lists[c] != [] {
        p := PopList(c);
        HandOut(p);
        return;
      }
      ghost var l, ab := layout, abandoned;
      p, crashed := FreshBlock(request, size, system);
      if p != 0 {
        if realsize <= CHUNK_SIZE { TakenFromIs(l, ab, size, system); }
        HandOut(p);
      }
    }

    /** Where a block that was not reused came from.  It is cut off the current
        chunk whenever it fits; a chunk is replaced only by a smaller request
        or when little of it is left; all else comes from the system. */
    ghost predicate TakenFrom(l: Layout, ab: seq<nat>, size: nat, system: nat -> nat)
      reads `layout, `abandoned
    {
      var whole := RealSize(size);
      var small := whole < MAX_LINEAR_BYTES || l.remaining <= MAX_LINEAR_BYTES;
      && (whole <= CHUNK_SIZE && whole <= l.remaining ==>
           layout == WithBlock(l, size) && abandoned == ab)
      && (whole <= CHUNK_SIZE && l.remaining < whole && small ==>
           && RealSize(size) <= CHUNK_SIZE - WORD
           && layout == WithBlock(WithChunk(l, system(CHUNK_SIZE)), size) && abandoned == ab + [l.remaining])
      && (whole > CHUNK_SIZE || (l.remaining < whole && !small) ==>
           layout == WithOneObject(l, system(WORD + whole), size) && abandoned == ab)
    }

    /** In terms of the chunks there are and of the space that is left. */
    lemma TakenFromIs(l: Layout, ab: seq<nat>, size: nat, system: nat -> nat)
      requires TakenFrom(l, ab, size, system) && RealSize(size) <= CHUNK_SIZE
      ensures var whole := RealSize(size);
              && (whole <= l.remaining ==> layout.chunks == l.chunks)
              && (whole > l.remaining && (whole < 512 || l.remaining <= 512) ==>
                   && layout.chunks == l.chunks + {Chunk(system(CHUNK_SIZE), CHUNK_SIZE)}
                   && layout.remaining == CHUNK_SIZE - WORD - whole)
              && (whole >= 512 && whole > l.remaining > 512 ==>
                   layout.next == l.next && layout.remaining == l.remaining)
    {
    }

    /** No freed block is there to be reused: cut one off the current chunk, or
        get memory from the system. */
    method FreshBlock(request: nat, size: nat, system: nat -> nat) returns (p: nat, crashed: bool)
      requires Valid() && size == BlockSize(request) && ClassFor(request) != TooBig
      requires forall n :: system(n) != 0 ==> Granted(layout, system(n), n)
      modifies `layout, `abandoned
      ensures crashed <==> ComesAlone(old(layout), size) && system(WORD + RealSize(size)) == 0
      ensures crashed ==> p == 0 && layout == old(layout)
      ensures p == 0 ==> Valid() && layout.size == old(layout.size)
      ensures p == 0 && !crashed ==> !mallocOk || system(CHUNK_SIZE) == 0
      ensures p != 0 ==> ValidBut({p}) && p !in old(layout.size) && layout.size == old(layout.size)[p := size]
      ensures p != 0 ==> Aligned(p)
      ensures p != 0 ==> TakenFrom(old(layout), old(abandoned), size, system)
    {
      hide Good, Granted, BlockSize, ClassFor;
      BlockSizeFits(request);
      var realsize := RealSize(size);
      if realsize > CHUNK_SIZE {
        p, crashed := MallocOneObject(size, system(WORD + realsize));
        return;
      }
      crashed := false;
      if layout.remaining < realsize {
        if !mallocOk {
          return 0, false;
        }
        if realsize >= MAX_LINEAR_BYTES && layout.remaining > MAX_LINEAR_BYTES {
          p, crashed := MallocOneObject(size, system(WORD + realsize));
          return;
        }
        var got := NewChunk(realsize, system(CHUNK_SIZE));
        if !got {
          return 0, false;
        }
        FitsInFreshChunk(request);
      }
      p := Carve(size);
    }

    /** `malloc_one_object`, which does not check what it gets. */
    method MallocOneObject(size: nat, base: nat) returns (p: nat, crashed: bool)
      requires Valid() && Aligned(size - WORD) && (base != 0 ==> Granted(layout, base, WORD + RealSize(size)))
      modifies `layout
      ensures crashed <==> base == 0
      ensures crashed ==> Valid() && p == 0 && layout == old(layout)
      ensures !crashed ==>
                && ValidBut({p}) && p == base + 2 * WORD && p !in old(layout.size)
                && layout == WithOneObject(old(layout), base, size) && p != 0 && Aligned(p)
    {
      hide Good, Granted, BlockSize, ClassFor;
      if base == 0 {
        return 0, true;
      }
      crashed := false;
      OneObjectIsGood(layout, base, size);
      ghost var before := layout.size;
      p := base + 2 * WORD;
      layout := WithOneObject(layout, base, size);
      BytesFrame(live, before, layout.size);
    }

    /** Take the first block of a free list. */
    method PopList(c: SizeClass) returns (p: nat)
      requires Valid() && c in lists && lists[c] != []
      modifies `lists
      ensures ValidBut({p}) && p == old(lists)[c][0] && p != 0 && Aligned(p)
      ensures p in layout.size && layout.size[p] == ListSize(c)
      ensures lists == old(lists)[c := old(lists)[c][1..]]
    {
      hide Good, BlockSize, ClassFor;
      BlockFacts(layout);
      p := lists[c][0];
      forall d, i | d in lists && 0 <= i < |lists[d]| && (d != c || i != 0) ensures lists[d][i] != p {
        if d != c && lists[d][i] == p { ListSizesDiffer(c, d); }
      }
      ghost var was := lists;
      lists := lists[c := lists[c][1..]];
      forall q | q in layout.size && q !in live && q !in huge && q !in retired && q != p
        ensures exists d :: d in lists && q in lists[d]
      {
        var d :| d in was && q in was[d];
        if d == c { assert was[c] == [p] + lists[c]; }
        assert q in lists[d];
      }
    }

    /** Leave what remains of the current chunk and start a fresh one. */
    method NewChunk(realsize: nat, base: nat) returns (ok: bool)
      requires Valid() && layout.remaining < realsize
      requires !(realsize >= MAX_LINEAR_BYTES && layout.remaining > MAX_LINEAR_BYTES)
      requires base != 0 ==> Granted(layout, base, CHUNK_SIZE)
      modifies `layout, `abandoned
      ensures Valid() && ok == (base != 0)
      ensures layout == if ok then WithChunk(old(layout), base)
                        else old(layout).(next := 0, remaining := 0)
      ensures abandoned == old(abandoned) + [old(layout).remaining]
    {
      hide Good, BlockSize, ClassFor;
      if layout.remaining > 0 { SpaceShape(layout); }
      abandoned := abandoned + [layout.remaining];
      ok := base != 0;
      if ok {
        ChunkIsGood(layout, base);
        layout := WithChunk(layout, base);
      } else {
        NoSpaceIsGood(layout);
        layout := layout.(next := 0, remaining := 0);
      }
    }

    /** Cut a block off the front of the current chunk. */
    method Carve(size: nat) returns (p: nat)
      requires Valid() && Aligned(size - WORD) && RealSize(size) <= layout.remaining
      modifies `layout
      ensures ValidBut({p}) && p == old(layout).next + WORD && p !in old(layout.size)
      ensures layout == WithBlock(old(layout), size) && p != 0 && Aligned(p)
    {
      hide Good, BlockSize, ClassFor;
      BlockIsGood(layout, size);
      ghost var before := layout.size;
      p := layout.next + WORD;
      layout := WithBlock(layout, size);
      BytesFrame(live, before, layout.size);
    }

    /** The program gets the block. */
    method HandOut(p: nat)
      requires ValidBut({p}) && p in layout.size
      requires BlockSize(layout.size[p]) == layout.size[p] && ClassFor(layout.size[p]) != TooBig
      modifies `live, `total
      ensures Valid() && live == old(live) + {p} && total == old(total) + RealSize(layout.size[p])
      ensures p !in old(live) && p !in huge
    {
      hide Good, BlockSize, ClassFor;
      live := live + {p};
      total := total + RealSize(layout.size[p]);
      BytesWithout(live, layout.size, p);
      assert live - {p} == old(live);
    }

    method HandOutHuge(p: nat)
      requires ValidBut({p}) && p in layout.size
      requires BlockSize(layout.size[p]) == layout.size[p] && ClassFor(layout.size[p]) == TooBig
      modifies `huge
      ensures Valid() && huge == old(huge) + {p} && p !in old(huge) && p !in live
    {
      hide Good, BlockSize, ClassFor;
      huge := huge + {p};
    }

    /** `o2_free`.  A class block goes to the front of the list it was allocated
        for, ready to be the next one handed out; a huge block is kept until
        shutdown.  Nothing else changes. */
    method Free(p: nat)
      requires Valid()
      requires p == 0 || p in live || p in huge
      modifies this
      ensures Valid()
      ensures layout == old(layout) && abandoned == old(abandoned)
      ensures p == 0 ==> live == old(live) && huge == old(huge) && lists == old(lists) && total == old(total)
      ensures p in old(live) ==>
                && live == old(live) - {p} && huge == old(huge)
                && total == old(total) - RealSize(layout.size[p])
                && var c := ClassFor(layout.size[p]);
                   IsList(c) && c in old(lists) && lists == old(lists)[c := [p] + old(lists)[c]]
      ensures p in old(huge) ==>
                && live == old(live) && huge == old(huge) - {p}
                && lists == old(lists) && total == old(total)
    {
      hide Good, BlockSize, ClassFor;
      BlockFacts(layout);
      if p == 0 {
        return;
      }
      var realsize := RealSize(layout.size[p]);
      var c, size := HeadForSize(layout.size[p]);
      BlockSizeFits(layout.size[p]);
      WriteSameSize(p, size);
      if c == TooBig {
        Retire(p);
        return;
      }
      TakeBack(p, realsize);
      PushList(c, p);
    }

    /** The size word is rewritten with the size looked up. */
    method WriteSameSize(p: nat, size: nat)
      requires p in layout.size && size == layout.size[p]
      modifies `layout
      ensures layout == old(layout)
    {
      assert layout.size[p := size] == layout.size;
      layout := layout.(size := layout.size[p := size]);
    }

    ghost method Retire(p: nat)
      requires Valid() && p in huge
      modifies `huge, `retired
      ensures Valid() && huge == old(huge) - {p}
    {
      hide Good, BlockSize, ClassFor;
      huge, retired := huge - {p}, retired + {p};
    }

    method TakeBack(p: nat, realsize: nat)
      requires Valid() && p in live && realsize == RealSize(layout.size[p])
      modifies `live, `total
      ensures ValidBut({p}) && live == old(live) - {p} && total == old(total) - realsize
    {
      hide Good, BlockSize, ClassFor;
      BytesWithout(live, layout.size, p);
      total := total - realsize;
      live := live - {p};
    }

    method PushList(c: SizeClass, p: nat)
      requires ValidBut({p}) && p in layout.size && c in lists && layout.size[p] == ListSize(c)
      modifies `lists
      ensures Valid() && lists == old(lists)[c := [p] + old(lists)[c]]
    {
      hide Good, BlockSize, ClassFor;
      forall d, i | d in lists && 0 <= i < |lists[d]| ensures lists[d][i] != p {
      }
      ghost var was := lists;
      lists := lists[c := [p] + lists[c]];
      forall q | q in layout.size && q !in live && q !in huge && q !in retired
        ensures exists d :: d in lists && q in lists[d]
      {
        if q == p {
          assert q in lists[c];
        } else {
          var d :| d in was && q in was[d];
          assert q in lists[d];
        }
      }
    }
  }
}
