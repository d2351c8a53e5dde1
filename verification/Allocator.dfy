/**
 The memory pool: blocks are cut one after the other from the newest of a list of chunks, and only
 the last block can grow where it is. Live blocks never overlap and reallocation keeps their bytes.
 */
module Allocator {
  import opened Bytes
  import opened Wrappers

  const ALIGNMENT: nat := 8

  function Align(n: nat): (r: nat)
    ensures r % ALIGNMENT == 0 && n <= r < n + ALIGNMENT
  {
    (n + (ALIGNMENT - 1)) / ALIGNMENT * ALIGNMENT
  }

  /** A chunk and the memory after its header. */
  datatype Chunk = Chunk(capacity: nat, size: nat, memory: seq<byte>)

  /** An address: a chunk, counted from the oldest, and an offset in its memory. */
  datatype Pointer = Pointer(chunk: nat, offset: nat)

  datatype Block = Block(at: Pointer, size: nat)

  predicate Disjoint(a: Block, b: Block) {
    a.at.chunk == b.at.chunk ==> a.at.offset + a.size <= b.at.offset || b.at.offset + b.size <= a.at.offset
  }

  predicate ValidChunk(c: Chunk) {
    c.size <= c.capacity == |c.memory| && c.size % ALIGNMENT == 0
  }

  /** In the used part of a chunk, aligned, and not empty. */
  predicate Inside(b: Block, cs: seq<Chunk>) {
    && b.at.chunk < |cs| && b.size > 0 && b.size % ALIGNMENT == 0 && b.at.offset % ALIGNMENT == 0
    && b.at.offset + b.size <= cs[b.at.chunk].size
  }

  ghost predicate Sound(cs: seq<Chunk>, live: set<Block>) {
    && cs != [] && (forall i :: 0 <= i < |cs| ==> ValidChunk(cs[i]))
    && (forall b :: b in live ==> Inside(b, cs))
    && (forall a, b :: a in live && b in live && a != b ==> Disjoint(a, b))
  }

  /** The bytes of a block. */
  function BytesOf(b: Block, cs: seq<Chunk>): (bytes: seq<byte>)
    requires Inside(b, cs) && ValidChunk(cs[b.at.chunk])
    ensures |bytes| == b.size
  {
    cs[b.at.chunk].memory[b.at.offset..b.at.offset + b.size]
  }

  /** All blocks of a set have the bytes they had. */
  ghost predicate Untouched(live: set<Block>, cs: seq<Chunk>, cs1: seq<Chunk>) {
    forall b :: b in live && Inside(b, cs) && ValidChunk(cs[b.at.chunk]) ==>
      Inside(b, cs1) && ValidChunk(cs1[b.at.chunk]) && BytesOf(b, cs1) == BytesOf(b, cs)
  }

  /** The newest chunk with more of it used. */
  function Bumped(cs: seq<Chunk>, n: nat): seq<Chunk>
    requires cs != []
  {
    var c := cs[|cs| - 1];
    cs[|cs| - 1 := Chunk(c.capacity, c.size + n, c.memory)]
  }

  lemma BumpSound(cs: seq<Chunk>, live: set<Block>, n: nat) returns (b: Block)
    requires Sound(cs, live) && n > 0 && n % ALIGNMENT == 0 && cs[|cs| - 1].size + n <= cs[|cs| - 1].capacity
    ensures b == Block(Pointer(|cs| - 1, cs[|cs| - 1].size), n)
    ensures b !in live && Sound(Bumped(cs, n), live + {b}) && Untouched(live, cs, Bumped(cs, n))
  {
    b := Block(Pointer(|cs| - 1, cs[|cs| - 1].size), n);
    assert !Inside(b, cs);
    var cs1 := Bumped(cs, n);
    forall a | a in live
      ensures Inside(a, cs1) && Disjoint(a, b) && Disjoint(b, a)
    {
      assert Inside(a, cs);
    }
  }

  /** A live block lies in a valid chunk and is all of its bytes. */
  lemma LiveInside(cs: seq<Chunk>, live: set<Block>, a: Block)
    requires Sound(cs, live) && a in live
    ensures cs != [] && Inside(a, cs) && ValidChunk(cs[a.at.chunk]) && BytesOf(a, cs)[..a.size] == BytesOf(a, cs)
  {
  }

  /** The last block of the newest chunk, longer. */
  lemma GrowSound(cs: seq<Chunk>, live: set<Block>, b: Block, used: nat, n: nat) returns (c: Block)
    requires Sound(cs, live) && b in live && n % ALIGNMENT == 0 && used <= b.size
    requires b.at.chunk == |cs| - 1 && b.at.offset + used == cs[|cs| - 1].size
    requires cs[|cs| - 1].size + n <= cs[|cs| - 1].capacity
    ensures c == Block(b.at, used + n) && Sound(Bumped(cs, n), live - {b} + {c})
    ensures Untouched(live - {b}, cs, Bumped(cs, n)) && Inside(b, cs) && ValidChunk(cs[b.at.chunk])
    ensures Inside(c, Bumped(cs, n)) && ValidChunk(Bumped(cs, n)[c.at.chunk])
    ensures BytesOf(c, Bumped(cs, n))[..used] == BytesOf(b, cs)[..used]
  {
    c := Block(b.at, used + n);
    var cs1 := Bumped(cs, n);
    assert Inside(b, cs);
    forall a | a in live
      ensures Inside(a, cs1)
    {
      assert Inside(a, cs);
    }
    forall a | a in live && a != b
      ensures Disjoint(a, c) && Disjoint(c, a)
    {
      assert Inside(a, cs) && Disjoint(a, b) && Disjoint(b, a);
    }
    FirstBytes(cs[b.at.chunk].memory, b.at.offset, b.size, used);
    FirstBytes(cs[b.at.chunk].memory, b.at.offset, used + n, used);
  }

  lemma FirstBytes(bytes: seq<byte>, offset: nat, size: nat, used: nat)
    requires used <= size && offset + size <= |bytes|
    ensures bytes[offset..offset + size][..used] == bytes[offset..offset + used]
  {
  }

  lemma AddSound(cs: seq<Chunk>, live: set<Block>, c: Chunk)
    requires Sound(cs, live) && ValidChunk(c)
    ensures Sound(cs + [c], live) && Untouched(live, cs, cs + [c])
  {
    forall a | a in live
      ensures Inside(a, cs + [c])
    {
      assert Inside(a, cs);
    }
  }

  /** Bytes written into one block change no other. */
  lemma CopySound(cs: seq<Chunk>, live: set<Block>, b: Block, bytes: seq<byte>)
    requires Sound(cs, live) && b in live && |bytes| <= b.size
    ensures var cs1 := Stored(cs, b.at, bytes);
            Sound(cs1, live) && Untouched(live - {b}, cs, cs1) && BytesOf(b, cs1)[..|bytes|] == bytes
  {
    hide BytesOf;
    assert Inside(b, cs) && ValidChunk(cs[b.at.chunk]);
    var cs1 := Stored(cs, b.at, bytes);
    forall a | a in live
      ensures Inside(a, cs1)
    {
      assert Inside(a, cs);
    }
    forall a | a in live - {b}
      ensures BytesOf(a, cs1) == BytesOf(a, cs)
    {
      assert Inside(a, cs) && Disjoint(a, b);
      OtherBytes(cs, a, b, bytes);
    }
    WrittenBytes(cs, b, bytes);
  }

  lemma OtherBytes(cs: seq<Chunk>, a: Block, b: Block, bytes: seq<byte>)
    requires Inside(a, cs) && Inside(b, cs) && Disjoint(a, b) && |bytes| <= b.size
    requires ValidChunk(cs[a.at.chunk]) && ValidChunk(cs[b.at.chunk])
    ensures Inside(a, Stored(cs, b.at, bytes)) && ValidChunk(Stored(cs, b.at, bytes)[a.at.chunk])
    ensures BytesOf(a, Stored(cs, b.at, bytes)) == BytesOf(a, cs)
  {
  }

  lemma WrittenBytes(cs: seq<Chunk>, b: Block, bytes: seq<byte>)
    requires Inside(b, cs) && ValidChunk(cs[b.at.chunk]) && |bytes| <= b.size
    ensures Inside(b, Stored(cs, b.at, bytes)) && ValidChunk(Stored(cs, b.at, bytes)[b.at.chunk])
    ensures BytesOf(b, Stored(cs, b.at, bytes))[..|bytes|] == bytes
  {
    var stored := Stored(cs, b.at, bytes)[b.at.chunk].memory;
    FirstBytes(stored, b.at.offset, b.size, |bytes|);
    assert stored[b.at.offset..b.at.offset + |bytes|] == bytes;
  }

  function Stored(cs: seq<Chunk>, p: Pointer, bytes: seq<byte>): seq<Chunk>
    requires p.chunk < |cs| && p.offset + |bytes| <= |cs[p.chunk].memory|
  {
    var c := cs[p.chunk];
    cs[p.chunk := Chunk(c.capacity, c.size, c.memory[..p.offset] + bytes + c.memory[p.offset + |bytes|..])]
  }

  // ---------------------------------------------------------------- the allocator

  class MemoryPoolAllocator {
    const chunkCapacity: nat
    /** Oldest first; the last one is the head of the list. */
    var chunks: seq<Chunk>
    /** The blocks handed out since the last clearing. */
    ghost var live: set<Block>

    /** The first chunk is the user's buffer, or has no room at all. */
    constructor (buffer: seq<byte>, chunkCapacity: nat)
      ensures Valid() && live == {} && this.chunkCapacity == chunkCapacity && chunks == [Chunk(|buffer|, 0, buffer)]
    {
      this.chunkCapacity := chunkCapacity;
      chunks := [Chunk(|buffer|, 0, buffer)];
      live := {};
    }

    ghost predicate Valid()
      reads this
    {
      Sound(chunks, live)
    }

    /** `fresh` is what the base allocator gives for a chunk, or none. */
    method AddChunk(capacity: nat, memory: Option<seq<byte>>) returns (ok: bool)
      requires Valid() && (memory.Some? ==> |memory.value| == capacity)
      modifies this`chunks
      ensures Valid() && ok == memory.Some?
      ensures chunks == if ok then old(chunks) + [Chunk(capacity, 0, memory.value)] else old(chunks)
      ensures Untouched(live, old(chunks), chunks)
    {
      ok := memory.Some?;
      if ok {
        AddSound(chunks, live, Chunk(capacity, 0, memory.value));
        chunks := chunks + [Chunk(capacity, 0, memory.value)];
      }
    }

    /** Memory for a chunk of the size this request would need. */
    predicate FitsRequest(size: nat, memory: Option<seq<byte>>) {
      memory.Some? ==> |memory.value| == if chunkCapacity > Align(size) then chunkCapacity else Align(size)
    }

    method Malloc(size: nat, memory: Option<seq<byte>>) returns (p: Option<Pointer>)
      requires Valid() && FitsRequest(size, memory)
      modifies this
      ensures Valid() && Untouched(old(live), old(chunks), chunks)
      ensures match p
              case None => live == old(live) && (size == 0 || memory.None?)
              case Some(a) => size > 0 && Block(a, Align(size)) !in old(live) &&
                              live == old(live) + {Block(a, Align(size))}
    {
      if size == 0 {
        return None;
      }
      var size := Align(size);
      var head := chunks[|chunks| - 1];
      if head.size + size > head.capacity {
        var ok := AddChunk(if chunkCapacity > size then chunkCapacity else size, memory);
        if !ok {
          return None;
        }
      }
      ghost var cs := chunks;
      ghost var b := BumpSound(cs, live, size);
      p := Some(Pointer(|chunks| - 1, chunks[|chunks| - 1].size));
      chunks := Bumped(chunks, size);
      UntouchedTwice(live, old(chunks), cs, chunks);
      live := live + {b};
    }

    lemma UntouchedTwice(live: set<Block>, a: seq<Chunk>, b: seq<Chunk>, c: seq<Chunk>)
      requires Untouched(live, a, b) && Untouched(live, b, c)
      ensures Untouched(live, a, c)
    {
    }

    lemma UntouchedFewer(live: set<Block>, a: Block, cs: seq<Chunk>, cs1: seq<Chunk>)
      requires Untouched(live, cs, cs1)
      ensures Untouched(live - {a}, cs, cs1)
    {
    }

    lemma UntouchedAlways(live: set<Block>, cs: seq<Chunk>)
      ensures Untouched(live, cs, cs)
    {
    }

    /**
     The caller names a live block `a` by its address, or none, and says how much of it is in use. The block
     that comes back holds those bytes, whether it stayed, grew where it is or moved.
     */
    method Realloc(p: Option<Pointer>, originalSize: nat, newSize: nat, memory: Option<seq<byte>>, ghost a: Block)
      returns (q: Option<Pointer>, ghost b: Block)
      requires Valid() && FitsRequest(newSize, memory)
      requires p.Some? ==> a in live && a.at == p.value && Align(originalSize) <= a.size
      modifies this
      ensures Valid() && (q.None? ==> live == old(live) && (newSize == 0 || memory.None?)) && (q.Some? ==> newSize > 0)
      ensures q.Some? ==> b in live && b.at == q.value && b.size >= Align(newSize)
      ensures if p.None? then Untouched(old(live), old(chunks), chunks)
              else Untouched(old(live) - {a}, old(chunks), chunks)
      ensures p.Some? && q.None? ==> Untouched(old(live), old(chunks), chunks)
      ensures p.Some? && q.Some? ==>
                && Align(originalSize) <= b.size && Inside(b, chunks) && ValidChunk(chunks[b.at.chunk])
                && BytesOf(b, chunks)[..Align(originalSize)] == old(BytesOf(a, chunks)[..Align(originalSize)])
      ensures q.Some? ==>
                if p == q then live == old(live) - {a} + {b} else b !in old(live) && live == old(live) + {b}
    {
      hide Align, Bumped, Sound, Untouched, BytesOf, Inside, ValidChunk;
      b := a;
      if p.None? {
        q := Malloc(newSize, memory);
        b := if q.Some? then Block(q.value, Align(newSize)) else b;
        return;
      }
      UntouchedAlways(live, chunks);
      UntouchedFewer(live, a, chunks, chunks);
      if newSize == 0 {
        return None, b;
      }
      var originalSize, newSize := Align(originalSize), Align(newSize);
      LiveInside(chunks, live, a);
      if originalSize >= newSize {
        return p, a;
      }
      var head := chunks[|chunks| - 1];
      if p.value.chunk == |chunks| - 1 && p.value.offset + originalSize == head.size {
        var increment := newSize - originalSize;
        if head.size + increment <= head.capacity {
          b := GrowSound(chunks, live, a, originalSize, increment);
          chunks := Bumped(chunks, increment);
          live := live - {a} + {b};
          return p, b;
        }
      }
      q, b := Move(p.value, originalSize, newSize, memory, a);
      UntouchedFewer(old(live), a, old(chunks), chunks);
    }

    /** A new block with the bytes in use; the old one is not freed. */
    method Move(p: Pointer, originalSize: nat, newSize: nat, memory: Option<seq<byte>>, ghost a: Block)
      returns (q: Option<Pointer>, ghost b: Block)
      requires Valid() && FitsRequest(newSize, memory) && a in live && a.at == p && originalSize <= a.size
      requires newSize % ALIGNMENT == 0 && originalSize < newSize
      requires Inside(a, chunks) && ValidChunk(chunks[a.at.chunk])
      modifies this
      ensures Valid() && Untouched(old(live), old(chunks), chunks)
      ensures q.None? ==> live == old(live) && memory.None?
      ensures q.Some? ==>
                && b !in old(live) && live == old(live) + {b} && b == Block(q.value, newSize) && q.value != p
                && Inside(b, chunks) && ValidChunk(chunks[b.at.chunk])
                && BytesOf(b, chunks)[..originalSize] == old(BytesOf(a, chunks)[..originalSize])
    {
      b := a;
      AlignedStays(newSize);
      ghost var cs := chunks;
      q := Malloc(newSize, memory);
      if q.Some? {
        b := Block(q.value, newSize);
        ghost var cs1 := chunks;
        assert Inside(b, cs1) && Inside(a, cs1) && ValidChunk(cs1[a.at.chunk]) && Disjoint(a, b);
        var bytes := chunks[p.chunk].memory[p.offset..p.offset + originalSize];
        assert bytes == BytesOf(a, cs1)[..originalSize];
        CopySound(chunks, live, b, bytes);
        chunks := Stored(chunks, q.value, bytes);
        UntouchedTwice(live - {b}, cs, cs1, chunks);
        assert Inside(b, chunks);
      }
    }

    /** The owner of a block writes at its beginning. */
    method Write(p: Pointer, bytes: seq<byte>, ghost a: Block)
      requires Valid() && a in live && a.at == p && |bytes| <= a.size
      modifies this`chunks
      ensures Valid() && Untouched(live - {a}, old(chunks), chunks)
      ensures Inside(a, chunks) && ValidChunk(chunks[a.at.chunk]) && BytesOf(a, chunks)[..|bytes|] == bytes
    {
      LiveInside(chunks, live, a);
      CopySound(chunks, live, a, bytes);
      chunks := Stored(chunks, p, bytes);
      LiveInside(chunks, live, a);
    }

    lemma AlignedStays(n: nat)
      requires n % ALIGNMENT == 0
      ensures Align(n) == n
    {
    }

    /** All chunks but the first are given back, and all blocks with them. */
    method Clear()
      requires Valid()
      modifies this
      ensures Valid() && live == {} && |chunks| == 1 && chunks[0] == old(chunks[0]).(size := 0)
    {
      while |chunks| > 1
        invariant |chunks| > 0 && chunks[0] == old(chunks[0])
      {
        chunks := chunks[..|chunks| - 1];
      }
      chunks := [chunks[0].(size := 0)];
      live := {};
    }

    method Capacity() returns (capacity: nat)
      ensures capacity == Sum(chunks, Room)
    {
      capacity := 0;
      var c := |chunks|;
      assert chunks[..c] == chunks;
      while c > 0
        invariant 0 <= c <= |chunks| && capacity + Sum(chunks[..c], Room) == Sum(chunks, Room)
      {
        assert chunks[..c][..c - 1] == chunks[..c - 1];
        capacity := capacity + chunks[c - 1].capacity;
        c := c - 1;
      }
    }

    method Size() returns (size: nat)
      ensures size == Sum(chunks, Used)
    {
      size := 0;
      var c := |chunks|;
      assert chunks[..c] == chunks;
      while c > 0
        invariant 0 <= c <= |chunks| && size + Sum(chunks[..c], Used) == Sum(chunks, Used)
      {
        assert chunks[..c][..c - 1] == chunks[..c - 1];
        size := size + chunks[c - 1].size;
        c := c - 1;
      }
    }
  }

  const Room: Chunk -> nat := (c: Chunk) => c.capacity
  const Used: Chunk -> nat := (c: Chunk) => c.size

  function Sum(cs: seq<Chunk>, f: Chunk -> nat): nat {
    if cs == [] then 0 else Sum(cs[..|cs| - 1], f) + f(cs[|cs| - 1])
  }

  /** What is used never exceeds what there is. */
  lemma {:induction false} SizeWithinCapacity(cs: seq<Chunk>)
    requires forall i :: 0 <= i < |cs| ==> ValidChunk(cs[i])
    ensures Sum(cs, Used) <= Sum(cs, Room)
  {
    if cs != [] {
      SizeWithinCapacity(cs[..|cs| - 1]);
    }
  }

  // ---------------------------------------------------------------- whole runs

  /** What a client does between two clearings; `k` is a block it holds. */
  datatype Request = Allocate(size: nat) | Resize(k: nat, newSize: nat) | Fill(k: nat, data: seq<byte>)

  /** What a client knows of a block: where it is, and the size it last asked for. */
  datatype Handle = Handle(at: Pointer, size: nat)

  /** What a client has in a block: the size it last asked for and the bytes it has put at its beginning. */
  datatype Cell = Cell(size: nat, data: seq<byte>)

  /** Whether the request names one of so many blocks, and fits it. */
  predicate Proper(sizes: seq<nat>, r: Request) {
    match r
    case Allocate(_) => true
    case Resize(k, _) => k < |sizes|
    case Fill(k, data) => k < |sizes| && |data| <= sizes[k]
  }

  /** Memory without addresses: separate cells, each of which keeps what is in it. */
  function After(cells: seq<Cell>, r: Request, served: bool): seq<Cell> {
    if !served then cells
    else
      match r
      case Allocate(size) => cells + [Cell(size, [])]
      case Resize(k, newSize) => if k < |cells| then cells[k := Cell(newSize, Cut(cells[k].data, newSize))] else cells
      case Fill(k, data) => if k < |cells| then cells[k := Cell(cells[k].size, data)] else cells
  }

  function Cut(data: seq<byte>, n: nat): (d: seq<byte>)
    ensures |d| <= n && |d| <= |data| && d == data[..|d|]
  {
    if |data| <= n then data else data[..n]
  }

  /** The cells after the first `n` requests. */
  function AfterAll(rs: seq<Request>, served: seq<bool>, n: nat): seq<Cell>
    requires n <= |rs| && n <= |served|
  {
    if n == 0 then [] else After(AfterAll(rs, served, n - 1), rs[n - 1], served[n - 1])
  }

  /** The size that decides how much memory the base allocator is asked for, if it is. */
  function Asked(r: Request): nat {
    match r
    case Allocate(size) => size
    case Resize(_, newSize) => newSize
    case Fill(_, _) => 0
  }

  /** A held block is live, holds as much as was asked for, and begins with what was put there. */
  ghost predicate Holds(chunks: seq<Chunk>, live: set<Block>, h: Handle, b: Block, c: Cell) {
    && b in live && h == Handle(b.at, c.size) && Align(c.size) <= b.size && |c.data| <= c.size
    && Inside(b, chunks) && ValidChunk(chunks[b.at.chunk]) && BytesOf(b, chunks)[..|c.data|] == c.data
  }

  ghost predicate Refines(chunks: seq<Chunk>, live: set<Block>, hs: seq<Handle>, bs: seq<Block>, cells: seq<Cell>) {
    && |hs| == |bs| == |cells|
    && (forall i :: 0 <= i < |hs| ==> Holds(chunks, live, hs[i], bs[i], cells[i]))
    && (forall i, j :: 0 <= i < j < |bs| ==> bs[i] != bs[j])
  }

  /** One block changes, all the others are untouched. */
  lemma OthersHold(cs: seq<Chunk>, live: set<Block>, cs1: seq<Chunk>, live1: set<Block>, hs: seq<Handle>,
                   bs: seq<Block>, cells: seq<Cell>, i: nat, a: Block)
    requires Refines(cs, live, hs, bs, cells) && i < |hs| && bs[i] != a
    requires Untouched(live - {a}, cs, cs1) && live - {a} <= live1
    ensures Holds(cs1, live1, hs[i], bs[i], cells[i])
  {
    assert bs[i] in live - {a};
  }

  lemma Added(cs: seq<Chunk>, live: set<Block>, cs1: seq<Chunk>, hs: seq<Handle>, bs: seq<Block>, cells: seq<Cell>,
              b: Block, size: nat)
    requires Refines(cs, live, hs, bs, cells) && Untouched(live, cs, cs1) && b !in live
    requires Inside(b, cs1) && ValidChunk(cs1[b.at.chunk]) && Align(size) <= b.size
    ensures Refines(cs1, live + {b}, hs + [Handle(b.at, size)], bs + [b], cells + [Cell(size, [])])
  {
    forall i | 0 <= i < |hs|
      ensures Holds(cs1, live + {b}, hs[i], bs[i], cells[i]) && bs[i] != b
    {
      assert Holds(cs, live, hs[i], bs[i], cells[i]);
    }
  }

  lemma Replaced(cs: seq<Chunk>, live: set<Block>, cs1: seq<Chunk>, live1: set<Block>, hs: seq<Handle>, bs: seq<Block>,
                 cells: seq<Cell>, k: nat, b: Block, c: Cell)
    requires Refines(cs, live, hs, bs, cells) && k < |hs|
    requires Untouched(live - {bs[k]}, cs, cs1) && live - {bs[k]} <= live1 && (b !in live || b == bs[k])
    requires Holds(cs1, live1, Handle(b.at, c.size), b, c)
    ensures Refines(cs1, live1, hs[k := Handle(b.at, c.size)], bs[k := b], cells[k := c])
  {
    hide Untouched;
    forall i | 0 <= i < |hs| && i != k
      ensures Holds(cs1, live1, hs[i], bs[i], cells[i]) && bs[i] != b
    {
      assert Holds(cs, live, hs[i], bs[i], cells[i]);
      OthersHold(cs, live, cs1, live1, hs, bs, cells, i, bs[k]);
    }
  }

  lemma Unchanged(cs: seq<Chunk>, live: set<Block>, cs1: seq<Chunk>, hs: seq<Handle>, bs: seq<Block>, cells: seq<Cell>)
    requires Refines(cs, live, hs, bs, cells) && Untouched(live, cs, cs1)
    ensures Refines(cs1, live, hs, bs, cells)
  {
    forall i | 0 <= i < |hs|
      ensures Holds(cs1, live, hs[i], bs[i], cells[i])
    {
      assert Holds(cs, live, hs[i], bs[i], cells[i]);
    }
  }

  /** One request; a client that is refused, or asks for nothing, goes on with what it has. */
  method Serve(pool: MemoryPoolAllocator, r: Request, memory: Option<seq<byte>>, hs: seq<Handle>, ghost bs: seq<Block>,
               ghost cells: seq<Cell>)
    returns (served: bool, hs': seq<Handle>, ghost bs': seq<Block>)
    requires pool.Valid() && Refines(pool.chunks, pool.live, hs, bs, cells) && Proper(Sizes(cells), r)
    requires pool.FitsRequest(Asked(r), memory)
    modifies pool
    ensures pool.Valid() && Refines(pool.chunks, pool.live, hs', bs', After(cells, r, served))
    ensures !served ==> hs' == hs && !r.Fill? && (Asked(r) == 0 || memory.None?)
    ensures served ==> r.Fill? || Asked(r) > 0
  {
    hs', bs' := hs, bs;
    ghost var cs, live := pool.chunks, pool.live;
    match r {
      case Allocate(size) =>
        var p := pool.Malloc(size, memory);
        served := p.Some?;
        if served {
          ghost var b := Block(p.value, Align(size));
          LiveInside(pool.chunks, pool.live, b);
          Added(cs, live, pool.chunks, hs, bs, cells, b, size);
          hs', bs' := hs + [Handle(p.value, size)], bs + [b];
        } else {
          Unchanged(cs, live, pool.chunks, hs, bs, cells);
        }
      case Resize(k, newSize) =>
        assert Holds(cs, live, hs[k], bs[k], cells[k]);
        var q; ghost var b;
        q, b := pool.Realloc(Some(hs[k].at), hs[k].size, newSize, memory, bs[k]);
        served := q.Some?;
        if served {
          ghost var c := Cell(newSize, Cut(cells[k].data, newSize));
          KeptBytes(BytesOf(b, pool.chunks), BytesOf(bs[k], cs), Align(hs[k].size), |cells[k].data|, |c.data|);
          Replaced(cs, live, pool.chunks, pool.live, hs, bs, cells, k, b, c);
          hs', bs' := hs[k := Handle(q.value, newSize)], bs[k := b];
        } else {
          Unchanged(cs, live, pool.chunks, hs, bs, cells);
        }
      case Fill(k, data) =>
        assert Holds(cs, live, hs[k], bs[k], cells[k]);
        pool.Write(hs[k].at, data, bs[k]);
        served := true;
        Replaced(cs, live, pool.chunks, pool.live, hs, bs, cells, k, bs[k], Cell(cells[k].size, data));
        assert hs == hs[k := Handle(bs[k].at, cells[k].size)] && bs == bs[k := bs[k]];
    }
  }

  lemma KeptBytes(now: seq<byte>, before: seq<byte>, kept: nat, used: nat, n: nat)
    requires n <= used <= kept <= |now| && kept <= |before| && now[..kept] == before[..kept]
    ensures now[..n] == before[..used][..n]
  {
    assert now[..n] == now[..kept][..n] && before[..n] == before[..kept][..n];
  }

  /** The bytes at an address. */
  predicate Reads(chunks: seq<Chunk>, p: Pointer, data: seq<byte>) {
    && p.chunk < |chunks| && p.offset + |data| <= chunks[p.chunk].size <= |chunks[p.chunk].memory|
    && chunks[p.chunk].memory[p.offset..p.offset + |data|] == data
  }

  /**
   A whole run of requests on a pool that is new or has been cleared. Whatever the base allocator does, the
   client finds in each of its blocks what it would find in a cell of its own, and no two blocks overlap. Only
   requests that name no such block, ask for nothing, or find the base allocator exhausted are not served.
   */
  method ServeAll(pool: MemoryPoolAllocator, rs: seq<Request>, memories: seq<Option<seq<byte>>>)
    returns (served: seq<bool>, hs: seq<Handle>)
    requires pool.Valid() && pool.live == {} && |memories| == |rs|
    requires forall i :: 0 <= i < |rs| ==> pool.FitsRequest(Asked(rs[i]), memories[i])
    modifies pool
    ensures pool.Valid() && |served| == |rs| && |hs| == |AfterAll(rs, served, |rs|)|
    ensures forall i :: 0 <= i < |hs| ==>
              var c := AfterAll(rs, served, |rs|)[i];
              hs[i].size == c.size && hs[i].at.offset % ALIGNMENT == 0 && Reads(pool.chunks, hs[i].at, c.data)
    ensures forall i, j :: 0 <= i < j < |hs| ==> Disjoint(Block(hs[i].at, hs[i].size), Block(hs[j].at, hs[j].size))
    ensures forall i :: 0 <= i < |rs| ==> Answered(rs, memories, served, i)
  {
    hide Refines, After, AfterAll, Sound, Proper, Asked, Answered, Sizes;
    served, hs := [], [];
    ghost var bs: seq<Block> := [];
    ghost var cells: seq<Cell> := [];
    NothingHeld(pool.chunks, pool.live, rs);
    for i := 0 to |rs|
      invariant pool.Valid() && |served| == i && Refines(pool.chunks, pool.live, hs, bs, cells)
      invariant cells == AfterAll(rs, served, i)
      invariant forall j :: 0 <= j < i ==> Answered(rs, memories, served, j)
    {
      var ok := false;
      SizesAre(hs, bs, pool.chunks, pool.live, cells);
      var sizes := seq(|hs|, k requires 0 <= k < |hs| => hs[k].size);
      ghost var was, before := served, cells;
      if Proper(sizes, rs[i]) {
        ok, hs, bs := Serve(pool, rs[i], memories[i], hs, bs, cells);
      } else {
        NotServed(cells, rs[i]);
      }
      served := served + [ok];
      cells := After(cells, rs[i], ok);
      OneMore(rs, memories, was, before, ok, served);
    }
    ClientView(pool.chunks, pool.live, hs, bs, cells);
  }

  /** A request is served exactly if it is proper and, but for writing, asks for something there is memory for. */
  ghost predicate Answered(rs: seq<Request>, memories: seq<Option<seq<byte>>>, served: seq<bool>, i: nat)
    requires i < |rs| && i < |served| && i < |memories|
  {
    AnsweredFrom(AfterAll(rs, served, i), rs[i], memories[i], served[i])
  }

  predicate AnsweredFrom(cells: seq<Cell>, r: Request, memory: Option<seq<byte>>, served: bool) {
    if served then Proper(Sizes(cells), r) && (r.Fill? || Asked(r) > 0)
    else !Proper(Sizes(cells), r) || (!r.Fill? && (Asked(r) == 0 || memory.None?))
  }

  lemma NothingHeld(cs: seq<Chunk>, live: set<Block>, rs: seq<Request>)
    ensures Refines(cs, live, [], [], []) && AfterAll(rs, [], 0) == []
  {
  }

  lemma NotServed(cells: seq<Cell>, r: Request)
    ensures After(cells, r, false) == cells
  {
  }

  /** One more answer changes nothing before it. */
  lemma OneMore(rs: seq<Request>, memories: seq<Option<seq<byte>>>, was: seq<bool>, cells: seq<Cell>, ok: bool,
                served: seq<bool>)
    requires |was| < |rs| == |memories| && cells == AfterAll(rs, was, |was|) && served == was + [ok]
    requires forall j :: 0 <= j < |was| ==> Answered(rs, memories, was, j)
    requires AnsweredFrom(cells, rs[|was|], memories[|was|], ok)
    ensures AfterAll(rs, served, |was| + 1) == After(cells, rs[|was|], ok)
    ensures forall j :: 0 <= j <= |was| ==> Answered(rs, memories, served, j)
  {
    hide AnsweredFrom, After;
    SamePrefix(rs, was, served, |was|);
    assert AfterAll(rs, served, |was| + 1) == After(AfterAll(rs, served, |was|), rs[|was|], served[|was|]);
    hide AfterAll;
    forall j | 0 <= j < |was|
      ensures Answered(rs, memories, served, j)
    {
      SamePrefix(rs, was, served, j);
      assert Answered(rs, memories, was, j) && served[j] == was[j];
    }
  }

  function Sizes(cells: seq<Cell>): (ns: seq<nat>)
    ensures |ns| == |cells| && forall i :: 0 <= i < |ns| ==> ns[i] == cells[i].size
  {
    seq(|cells|, i requires 0 <= i < |cells| => cells[i].size)
  }

  lemma SizesAre(hs: seq<Handle>, bs: seq<Block>, cs: seq<Chunk>, live: set<Block>, cells: seq<Cell>)
    requires Refines(cs, live, hs, bs, cells)
    ensures |hs| == |cells| && forall i :: 0 <= i < |hs| ==> hs[i].size == Sizes(cells)[i]
    ensures Sizes(cells) == seq(|hs|, k requires 0 <= k < |hs| => hs[k].size)
  {
    assert forall i :: 0 <= i < |hs| ==> Holds(cs, live, hs[i], bs[i], cells[i]);
  }

  /** Later answers do not change what there was before. */
  lemma {:induction false} SamePrefix(rs: seq<Request>, served: seq<bool>, longer: seq<bool>, n: nat)
    requires n <= |rs| && n <= |served| <= |longer| && longer[..|served|] == served
    ensures AfterAll(rs, served, n) == AfterAll(rs, longer, n)
  {
    if n > 0 {
      assert longer[n - 1] == longer[..|served|][n - 1];
      SamePrefix(rs, served, longer, n - 1);
    }
  }

  lemma ClientView(cs: seq<Chunk>, live: set<Block>, hs: seq<Handle>, bs: seq<Block>, cells: seq<Cell>)
    requires Sound(cs, live) && Refines(cs, live, hs, bs, cells)
    ensures |hs| == |cells|
    ensures forall i :: 0 <= i < |hs| ==>
              hs[i].size == cells[i].size && hs[i].at.offset % ALIGNMENT == 0 && Reads(cs, hs[i].at, cells[i].data)
    ensures forall i, j :: 0 <= i < j < |hs| ==> Disjoint(Block(hs[i].at, hs[i].size), Block(hs[j].at, hs[j].size))
  {
    hide Align;
    forall i | 0 <= i < |hs|
      ensures hs[i].size == cells[i].size && hs[i].at.offset % ALIGNMENT == 0 && Reads(cs, hs[i].at, cells[i].data)
    {
      assert Holds(cs, live, hs[i], bs[i], cells[i]);
      var b, n := bs[i], |cells[i].data|;
      assert BytesOf(b, cs)[..n] == cs[b.at.chunk].memory[b.at.offset..b.at.offset + n];
    }
    forall i, j | 0 <= i < j < |hs|
      ensures Disjoint(Block(hs[i].at, hs[i].size), Block(hs[j].at, hs[j].size))
    {
      assert Holds(cs, live, hs[i], bs[i], cells[i]) && Holds(cs, live, hs[j], bs[j], cells[j]);
      assert Disjoint(bs[i], bs[j]);
    }
  }
}
