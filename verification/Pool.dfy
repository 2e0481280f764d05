/**
 MemoryPoolAllocator of allocators.h on a flat address space: chunks from a base allocator, blocks cut
 from the head chunk, and the bytes in them. What the base allocator returns is a parameter.
 */
module Pool {
  import opened Ascii
  import opened Events

  /** sizeof(ChunkHeader), three words of a 64-bit layout. */
  const HEADER: nat := 24

  /** RAPIDJSON_ALIGN. */
  function Align(x: nat): (r: nat)
    ensures x <= r < x + 8 && r % 8 == 0
  {
    (x + 7) / 8 * 8
  }

  /** A chunk: its header is at `address`, its memory behind the header. */
  datatype Chunk = Chunk(address: nat, capacity: nat, size: nat, user: bool)

  /** Memory handed out and not given up by Clear. */
  datatype Block = Block(address: nat, size: nat)

  /** The pool, head chunk first; the blocks that are live; the bytes at all addresses. */
  datatype State = State(chunks: seq<Chunk>, chunkCapacity: nat, blocks: seq<Block>, memory: nat -> Byte)

  function Begin(c: Chunk): nat {
    c.address + HEADER
  }

  /** The end of the memory in use. */
  function Used(c: Chunk): nat {
    Begin(c) + c.size
  }

  function End(c: Chunk): nat {
    Begin(c) + c.capacity
  }

  predicate Apart(a: nat, aEnd: nat, b: nat, bEnd: nat) {
    aEnd <= b || bEnd <= a
  }

  //////////////////////////////////////////////////////////////////////////////
  // The invariant
  //////////////////////////////////////////////////////////////////////////////

  predicate GoodChunk(c: Chunk) {
    c.address > 0 && (c.user || c.address % 8 == 0) && c.size % 8 == 0 && c.size <= c.capacity
  }

  predicate GoodBlock(b: Block) {
    b.size > 0 && b.size % 8 == 0
  }

  /** A block lies in the used part of a chunk, a multiple of 8 bytes from its header. */
  predicate Inside(b: Block, c: Chunk) {
    Begin(c) <= b.address && b.address + b.size <= Used(c) && (b.address - c.address) % 8 == 0
  }

  predicate ChunksApart(c: Chunk, d: Chunk) {
    Apart(c.address, End(c), d.address, End(d))
  }

  predicate BlocksApart(a: Block, b: Block) {
    Apart(a.address, a.address + a.size, b.address, b.address + b.size)
  }

  /** Chunks are sound and apart; only the last can be the user's buffer. */
  predicate GoodChunks(chunks: seq<Chunk>) {
    && (forall i | 0 <= i < |chunks| :: GoodChunk(chunks[i]) && (chunks[i].user ==> i == |chunks| - 1))
    && (forall i, j | 0 <= i < j < |chunks| :: ChunksApart(chunks[i], chunks[j]))
  }

  /** Every block lies in the used part of a chunk. */
  predicate Housed(b: Block, chunks: seq<Chunk>) {
    exists i | 0 <= i < |chunks| :: Inside(b, chunks[i])
  }

  predicate GoodBlocks(blocks: seq<Block>, chunks: seq<Chunk>) {
    && (forall i | 0 <= i < |blocks| :: GoodBlock(blocks[i]) && Housed(blocks[i], chunks))
    && (forall i, j | 0 <= i < j < |blocks| :: BlocksApart(blocks[i], blocks[j]))
  }

  predicate Inv(s: State) {
    GoodChunks(s.chunks) && GoodBlocks(s.blocks, s.chunks)
  }

  //////////////////////////////////////////////////////////////////////////////
  // Operations
  //////////////////////////////////////////////////////////////////////////////

  /** Whether the head chunk has no room for `size` more bytes. */
  predicate Full(chunks: seq<Chunk>, size: nat) {
    chunks == [] || chunks[0].size + size > chunks[0].capacity
  }

  /** The capacity AddChunk asks for. */
  function NewCapacity(s: State, size: nat): nat {
    if s.chunkCapacity > size then s.chunkCapacity else size
  }

  /** The base allocator's promise: aligned memory apart from all chunks, or none. */
  predicate Honest(s: State, size: nat, base: Option<nat>) {
    base.Some? ==>
      && base.value > 0 && base.value % 8 == 0
      && forall i | 0 <= i < |s.chunks| ::
           Apart(base.value, base.value + HEADER + NewCapacity(s, Align(size)), s.chunks[i].address, End(s.chunks[i]))
  }

  datatype Result = Result(state: State, address: Option<nat>)

  /** The head chunk with room for `size` bytes, if it can be had. */
  function WithRoom(s: State, size: nat, base: Option<nat>): Option<seq<Chunk>> {
    if !Full(s.chunks, size) then Some(s.chunks)
    else if base.Some? then Some([Chunk(base.value, NewCapacity(s, size), 0, false)] + s.chunks)
    else None
  }

  function Malloc(s: State, size: nat, base: Option<nat>): Result {
    if size == 0 then Result(s, None)
    else
      match WithRoom(s, Align(size), base)
      case None => Result(s, None)
      case Some(chunks) =>
        if chunks == [] then Result(s, None)
        else
          var head := chunks[0];
          Result(s.(chunks := chunks[0 := head.(size := head.size + Align(size))],
                    blocks := s.blocks + [Block(Used(head), Align(size))]),
                 Some(Used(head)))
  }

  /** memcpy. */
  function Copied(memory: nat -> Byte, to: nat, from: nat, n: nat): nat -> Byte {
    (a: nat) => if to <= a < to + n then memory(from + (a - to)) else memory(a)
  }

  /** The block that begins at an address. */
  function BlockAt(blocks: seq<Block>, address: nat): (i: nat)
    ensures i <= |blocks|
    ensures i < |blocks| ==> blocks[i].address == address
    ensures forall j | 0 <= j < i :: blocks[j].address != address
  {
    if blocks == [] || blocks[0].address == address then 0 else 1 + BlockAt(blocks[1..], address)
  }

  /** The size the caller gives for a block is one the block has. */
  predicate Truthful(s: State, pointer: nat, originalSize: nat) {
    var i := BlockAt(s.blocks, pointer);
    originalSize > 0 && i < |s.blocks| && originalSize <= s.blocks[i].size
  }

  /** The block ends where the head chunk ends, and that has room for it to grow. */
  predicate GrowsInPlace(s: State, pointer: nat, originalSize: nat, newSize: nat) {
    && s.chunks != []
    && pointer + originalSize == Used(s.chunks[0])
    && s.chunks[0].size + (newSize - originalSize) <= s.chunks[0].capacity
  }

  function Realloc(s: State, pointer: Option<nat>, originalSize: nat, newSize: nat, base: Option<nat>): Result {
    if pointer.None? then Malloc(s, newSize, base)
    else if newSize == 0 then Result(s, None)
    else
      var p, original, size := pointer.value, Align(originalSize), Align(newSize);
      if original >= size then Result(s, pointer)
      else if GrowsInPlace(s, p, original, size) then
        var head, i := s.chunks[0], BlockAt(s.blocks, p);
        Result(s.(chunks := s.chunks[0 := head.(size := head.size + (size - original))],
                  blocks := if i < |s.blocks| then s.blocks[i := Block(p, size)] else s.blocks),
               pointer)
      else
        var r := Malloc(s, size, base);
        if r.address.None? then r
        else Result(r.state.(memory := Copied(s.memory, r.address.value, p, original)), r.address)
  }

  /** What Clear keeps: the user's buffer, emptied. */
  function Kept(chunks: seq<Chunk>): seq<Chunk> {
    if chunks == [] then []
    else if chunks[0].user then chunks[0 := chunks[0].(size := 0)]
    else Kept(chunks[1..])
  }

  function Clear(s: State): State {
    s.(chunks := Kept(s.chunks), blocks := [])
  }

  function TotalCapacity(chunks: seq<Chunk>): nat {
    if chunks == [] then 0 else chunks[0].capacity + TotalCapacity(chunks[1..])
  }

  function TotalSize(chunks: seq<Chunk>): nat {
    if chunks == [] then 0 else chunks[0].size + TotalSize(chunks[1..])
  }

  lemma {:induction false} SizeWithinCapacity(chunks: seq<Chunk>)
    requires forall i | 0 <= i < |chunks| :: GoodChunk(chunks[i])
    ensures TotalSize(chunks) <= TotalCapacity(chunks)
  {
    if chunks != [] { SizeWithinCapacity(chunks[1..]); }
  }

  //////////////////////////////////////////////////////////////////////////////
  // Every operation keeps the invariant
  //////////////////////////////////////////////////////////////////////////////

  /** The head chunk grows by `more` bytes. */
  function Grown(chunks: seq<Chunk>, more: nat): seq<Chunk>
    requires chunks != []
  {
    chunks[0 := chunks[0].(size := chunks[0].size + more)]
  }

  lemma GrownKeepsChunks(chunks: seq<Chunk>, more: nat)
    requires GoodChunks(chunks) && chunks != [] && more % 8 == 0 && chunks[0].size + more <= chunks[0].capacity
    ensures GoodChunks(Grown(chunks, more))
  {
    var grown := Grown(chunks, more);
    forall i, j | 0 <= i < j < |grown| ensures ChunksApart(grown[i], grown[j]) {
      assert ChunksApart(chunks[i], chunks[j]);
    }
  }

  lemma GrownHouses(b: Block, chunks: seq<Chunk>, more: nat)
    requires chunks != [] && Housed(b, chunks)
    ensures Housed(b, Grown(chunks, more))
  {
    var i :| 0 <= i < |chunks| && Inside(b, chunks[i]);
    assert Inside(b, Grown(chunks, more)[i]);
  }

  /** A block in use is apart from what is not in use of the head chunk. */
  lemma UnusedIsApart(b: Block, chunks: seq<Chunk>, from: nat, to: nat)
    requires GoodChunks(chunks) && chunks != [] && Housed(b, chunks)
    requires Used(chunks[0]) <= from <= to <= End(chunks[0])
    ensures Apart(b.address, b.address + b.size, from, to)
  {
    var i :| 0 <= i < |chunks| && Inside(b, chunks[i]);
    assert GoodChunk(chunks[i]);
    if i > 0 { assert ChunksApart(chunks[0], chunks[i]); }
  }

  lemma RoomKeeps(s: State, size: nat, base: Option<nat>)
    requires Inv(s) && size > 0 && Honest(s, size, base) && WithRoom(s, Align(size), base).Some?
    ensures var chunks := WithRoom(s, Align(size), base).value;
            chunks != [] && GoodChunks(chunks) && GoodBlocks(s.blocks, chunks)
            && chunks[0].size + Align(size) <= chunks[0].capacity
  {
    hide Align;
    var chunks := WithRoom(s, Align(size), base).value;
    if Full(s.chunks, Align(size)) {
      forall b | b in s.blocks ensures Housed(b, chunks) {
        assert Housed(b, s.chunks);
        var i :| 0 <= i < |s.chunks| && Inside(b, s.chunks[i]);
        assert Inside(b, chunks[i + 1]);
      }
      forall i, j | 0 <= i < j < |chunks| ensures ChunksApart(chunks[i], chunks[j]) {
        if i > 0 { assert ChunksApart(s.chunks[i - 1], s.chunks[j - 1]); }
      }
    }
  }

  /** Malloc: a new block, apart from all others, and nothing else changes. */
  lemma MallocKeeps(s: State, size: nat, base: Option<nat>)
    requires Inv(s) && Honest(s, size, base)
    ensures var r := Malloc(s, size, base);
            && Inv(r.state) && r.state.memory == s.memory
            && (r.address.None? ==> r.state == s)
            && (r.address.Some? ==> size > 0 && r.state.blocks == s.blocks + [Block(r.address.value, Align(size))])
  {
    hide Align, Honest, WithRoom, GoodChunks, GoodBlocks;
    if size > 0 && WithRoom(s, Align(size), base).Some? {
      RoomKeeps(s, size, base);
      var chunks := WithRoom(s, Align(size), base).value;
      GrownKeepsChunks(chunks, Align(size));
      PushKeeps(s.blocks, chunks, Align(size));
    }
  }

  /** A block pushed at the end of the used part of the head chunk. */
  lemma PushKeeps(blocks: seq<Block>, chunks: seq<Chunk>, size: nat)
    requires GoodChunks(chunks) && GoodBlocks(blocks, chunks) && chunks != []
    requires size > 0 && size % 8 == 0 && chunks[0].size + size <= chunks[0].capacity
    ensures GoodBlocks(blocks + [Block(Used(chunks[0]), size)], Grown(chunks, size))
  {
    var b, grown := Block(Used(chunks[0]), size), Grown(chunks, size);
    assert GoodBlock(b) && Housed(b, grown) by { assert GoodChunk(chunks[0]) && Inside(b, grown[0]); }
    forall i | 0 <= i < |blocks| ensures Housed(blocks[i], grown) && BlocksApart(blocks[i], b) {
      GrownHouses(blocks[i], chunks, size);
      UnusedIsApart(blocks[i], chunks, Used(chunks[0]), Used(chunks[0]) + size);
    }
    hide GoodChunks, Housed, GoodBlock, BlocksApart, Grown;
  }

  /** What Realloc is told of the block and the base allocator. */
  predicate ReallocAllowed(s: State, pointer: Option<nat>, originalSize: nat, newSize: nat, base: Option<nat>) {
    (pointer.Some? ==> Truthful(s, pointer.value, originalSize)) && Honest(s, newSize, base)
  }

  lemma AlignTwice(x: nat)
    ensures Align(Align(x)) == Align(x)
  {
  }

  lemma AlignWithin(x: nat, y: nat)
    requires x <= y && y % 8 == 0
    ensures Align(x) <= y
  {
  }

  /** A block that seems to end with the used part of the head chunk does, and is as large as it seems. */
  lemma LastBlock(b: Block, chunks: seq<Chunk>, size: nat)
    requires GoodChunks(chunks) && chunks != [] && Housed(b, chunks) && 0 < size <= b.size
    requires b.address + size == Used(chunks[0])
    ensures b.size == size && Inside(b, chunks[0])
  {
    var i :| 0 <= i < |chunks| && Inside(b, chunks[i]);
    assert GoodChunk(chunks[0]) && GoodChunk(chunks[i]);
    assert i > 0 ==> ChunksApart(chunks[0], chunks[i]);
  }

  /** The last block grows with the head chunk. */
  lemma GrowKeeps(blocks: seq<Block>, chunks: seq<Chunk>, i: nat, size: nat)
    requires GoodChunks(chunks) && GoodBlocks(blocks, chunks) && chunks != [] && i < |blocks|
    requires Inside(blocks[i], chunks[0]) && blocks[i].address + blocks[i].size == Used(chunks[0])
    requires blocks[i].size <= size && size % 8 == 0 && chunks[0].size + (size - blocks[i].size) <= chunks[0].capacity
    ensures GoodBlocks(blocks[i := Block(blocks[i].address, size)], Grown(chunks, size - blocks[i].size))
  {
    var b, more := blocks[i], size - blocks[i].size;
    var c, grown := Block(b.address, size), Grown(chunks, size - blocks[i].size);
    assert GoodBlock(c) && Housed(c, grown) by { assert GoodBlock(b) && Inside(c, grown[0]); }
    forall j | 0 <= j < |blocks| ensures Housed(blocks[j], grown) && (j != i ==> BlocksApart(blocks[j], c) && BlocksApart(c, blocks[j])) {
      GrownHouses(blocks[j], chunks, more);
      UnusedIsApart(blocks[j], chunks, Used(chunks[0]), Used(chunks[0]) + more);
      if j < i { assert BlocksApart(blocks[j], b); } else if i < j { assert BlocksApart(b, blocks[j]); }
    }
    hide GoodChunks, Housed, GoodBlock, BlocksApart, Grown;
  }

  /** Blocks stay where they are, do not shrink, and keep their bytes. */
  ghost predicate Preserves(s: State, t: State) {
    |s.blocks| <= |t.blocks| &&
    forall i | 0 <= i < |s.blocks| ::
      && t.blocks[i].address == s.blocks[i].address && t.blocks[i].size >= s.blocks[i].size
      && SameBytes(s.memory, t.memory, s.blocks[i])
  }

  ghost predicate SameBytes(m: nat -> Byte, n: nat -> Byte, b: Block) {
    forall a | b.address <= a < b.address + b.size :: n(a) == m(a)
  }

  /** The block Realloc returns holds the bytes of the old one. */
  ghost predicate Moved(s: State, from: nat, n: nat, t: State, to: nat, size: nat) {
    && (exists i | 0 <= i < |t.blocks| :: t.blocks[i].address == to && t.blocks[i].size >= size)
    && forall a | from <= a < from + n :: t.memory(to + (a - from)) == s.memory(a)
  }

  lemma MallocPreserves(s: State, size: nat, base: Option<nat>)
    requires Inv(s) && Honest(s, size, base)
    ensures Preserves(s, Malloc(s, size, base).state)
  {
    hide Malloc;
    MallocKeeps(s, size, base);
  }

  lemma ReallocGrows(s: State, p: nat, originalSize: nat, newSize: nat)
    requires Inv(s) && Truthful(s, p, originalSize)
    requires Align(originalSize) < Align(newSize) && GrowsInPlace(s, p, Align(originalSize), Align(newSize))
    ensures var r := Realloc(s, Some(p), originalSize, newSize, None);
            Inv(r.state) && Preserves(s, r.state) && r.address == Some(p) && Moved(s, p, originalSize, r.state, p, newSize)
  {
    hide Align, GoodChunks, GoodBlocks;
    var i := BlockAt(s.blocks, p);
    assert GoodBlock(s.blocks[i]) && Housed(s.blocks[i], s.chunks) by { BlockIsGood(s, i); }
    AlignWithin(originalSize, s.blocks[i].size);
    LastBlock(s.blocks[i], s.chunks, Align(originalSize));
    GrownKeepsChunks(s.chunks, Align(newSize) - Align(originalSize));
    GrowKeeps(s.blocks, s.chunks, i, Align(newSize));
    var r := Realloc(s, Some(p), originalSize, newSize, None);
    assert r.state.blocks[i] == Block(p, Align(newSize));
  }

  lemma BlockIsGood(s: State, i: nat)
    requires Inv(s) && i < |s.blocks|
    ensures GoodBlock(s.blocks[i]) && Housed(s.blocks[i], s.chunks)
  {
  }

  lemma ReallocMoves(s: State, p: nat, originalSize: nat, newSize: nat, base: Option<nat>)
    requires Inv(s) && Truthful(s, p, originalSize) && Honest(s, newSize, base)
    requires newSize > 0 && Align(originalSize) < Align(newSize) && !GrowsInPlace(s, p, Align(originalSize), Align(newSize))
    ensures var r := Realloc(s, Some(p), originalSize, newSize, base);
            && Inv(r.state) && Preserves(s, r.state) && (r.address.None? ==> r.state == s)
            && (r.address.Some? ==> Moved(s, p, originalSize, r.state, r.address.value, newSize))
  {
    hide Align, Malloc, Honest, GoodChunks;
    AlignTwice(newSize);
    HonestAligned(s, newSize, base);
    var r := Malloc(s, Align(newSize), base);
    MallocKeeps(s, Align(newSize), base);
    if r.address.Some? {
      var n := |s.blocks|;
      var to, size := r.address.value, Align(newSize);
      assert r.state.blocks[n] == Block(to, size);
      forall i | 0 <= i < n ensures BlocksApart(s.blocks[i], Block(to, size)) {
        assert BlocksApart(r.state.blocks[i], r.state.blocks[n]);
      }
      hide GoodBlocks, BlocksApart, SameBytes;
      CopyPreserves(s.blocks, s.memory, Block(to, size), p, Align(originalSize));
    }
  }

  lemma CopyPreserves(blocks: seq<Block>, memory: nat -> Byte, b: Block, from: nat, n: nat)
    requires n <= b.size && forall i | 0 <= i < |blocks| :: BlocksApart(blocks[i], b)
    ensures forall i | 0 <= i < |blocks| :: SameBytes(memory, Copied(memory, b.address, from, n), blocks[i])
  {
  }

  lemma HonestAligned(s: State, size: nat, base: Option<nat>)
    requires Honest(s, size, base)
    ensures Honest(s, Align(size), base)
  {
    AlignTwice(size);
  }

  /** Realloc: the invariant is kept, no block's bytes change, and the block returned is large enough
      and begins with the bytes of the old one. */
  lemma ReallocKeeps(s: State, pointer: Option<nat>, originalSize: nat, newSize: nat, base: Option<nat>)
    requires Inv(s) && ReallocAllowed(s, pointer, originalSize, newSize, base)
    ensures var r := Realloc(s, pointer, originalSize, newSize, base);
            && Inv(r.state) && Preserves(s, r.state) && (r.address.None? ==> r.state == s)
            && (pointer.Some? && r.address.Some? ==>
                  Moved(s, pointer.value, if originalSize < newSize then originalSize else newSize, r.state, r.address.value, newSize))
  {
    hide Malloc, Inv, Honest, GrowsInPlace, Align;
    if pointer.None? {
      MallocKeeps(s, newSize, base);
      MallocPreserves(s, newSize, base);
    } else if newSize > 0 {
      var p, i := pointer.value, BlockAt(s.blocks, pointer.value);
      if Align(originalSize) >= Align(newSize) {
        BlockIsGood(s, i);
        AlignWithin(originalSize, s.blocks[i].size);
        assert s.blocks[i].address == p && s.blocks[i].size >= newSize;
      } else if GrowsInPlace(s, p, Align(originalSize), Align(newSize)) {
        ReallocGrows(s, p, originalSize, newSize);
      } else {
        ReallocMoves(s, p, originalSize, newSize, base);
      }
    }
  }

  /** The user's buffer, which is the last chunk, is in use. */
  predicate HasBuffer(chunks: seq<Chunk>) {
    chunks != [] && chunks[|chunks| - 1].user
  }

  lemma {:induction false} KeptGood(chunks: seq<Chunk>)
    requires GoodChunks(chunks)
    ensures GoodChunks(Kept(chunks)) && TotalSize(Kept(chunks)) == 0
    ensures Kept(chunks) == if HasBuffer(chunks) then [chunks[|chunks| - 1].(size := 0)] else []
  {
    if chunks != [] && !chunks[0].user {
      assert forall i, j | 0 <= i < j < |chunks| - 1 :: ChunksApart(chunks[1..][i], chunks[1..][j]) by {
        forall i, j | 0 <= i < j < |chunks| - 1 ensures ChunksApart(chunks[1..][i], chunks[1..][j]) {
          assert ChunksApart(chunks[i + 1], chunks[j + 1]);
        }
      }
      KeptGood(chunks[1..]);
    }
  }

  /** Clear leaves the user's buffer, emptied, if there is one, and nothing else; no block is live. */
  lemma ClearKeeps(s: State)
    requires Inv(s)
    ensures Inv(Clear(s)) && TotalSize(Clear(s).chunks) == 0 && Clear(s).blocks == []
    ensures Clear(s).chunks == if HasBuffer(s.chunks) then [s.chunks[|s.chunks| - 1].(size := 0)] else []
  {
    KeptGood(s.chunks);
  }

  //////////////////////////////////////////////////////////////////////////////
  // When memory is returned, and where
  //////////////////////////////////////////////////////////////////////////////

  function Max(x: nat, y: nat): nat {
    if x < y then y else x
  }

  /** There is no chunk, or fewer than `size` bytes are left in the first. */
  predicate OutOfRoom(chunks: seq<Chunk>, size: nat) {
    chunks != [] ==> chunks[0].capacity - chunks[0].size < size
  }

  /** Malloc returns no memory if and only if none is asked for, or there is no room and the base
      allocator has none either. */
  lemma MallocFails(s: State, size: nat, base: Option<nat>)
    ensures Malloc(s, size, base).address.None? <==> size == 0 || (OutOfRoom(s.chunks, Align(size)) && base.None?)
  {
    hide Align;
  }

  /** Without room a chunk is added in front, at the address the base allocator gives and large enough,
      and the block is the first in it. */
  lemma MallocAddsChunk(s: State, size: nat, address: nat)
    requires size > 0 && OutOfRoom(s.chunks, Align(size))
    ensures var r, capacity := Malloc(s, size, Some(address)), Max(s.chunkCapacity, Align(size));
            && r.address == Some(address + HEADER)
            && r.state.chunks == [Chunk(address, capacity, Align(size), false)] + s.chunks
            && TotalCapacity(r.state.chunks) == TotalCapacity(s.chunks) + capacity
            && TotalSize(r.state.chunks) == TotalSize(s.chunks) + Align(size)
  {
    hide Align;
    var r, capacity := Malloc(s, size, Some(address)), Max(s.chunkCapacity, Align(size));
    var chunk := Chunk(address, capacity, Align(size), false);
    assert r.state.chunks == [chunk] + s.chunks;
    assert ([chunk] + s.chunks)[1..] == s.chunks;
  }

  /** With room the block lies where the used part of the first chunk ends. */
  lemma MallocUsesHead(s: State, size: nat, base: Option<nat>)
    requires size > 0 && !OutOfRoom(s.chunks, Align(size))
    ensures var r, head := Malloc(s, size, base), s.chunks[0];
            && r.address == Some(head.address + HEADER + head.size)
            && r.state.chunks == [head.(size := head.size + Align(size))] + s.chunks[1..]
            && TotalCapacity(r.state.chunks) == TotalCapacity(s.chunks)
            && TotalSize(r.state.chunks) == TotalSize(s.chunks) + Align(size)
  {
    hide Align;
    var r, head := Malloc(s, size, base), s.chunks[0];
    var chunk := head.(size := head.size + Align(size));
    assert r.state.chunks == [chunk] + s.chunks[1..];
    assert ([chunk] + s.chunks[1..])[1..] == s.chunks[1..];
  }

  /** The block ends where the used part of the first chunk does, and that chunk has `more` bytes left. */
  predicate CanGrow(chunks: seq<Chunk>, end: nat, more: nat) {
    && chunks != [] && end == chunks[0].address + HEADER + chunks[0].size
    && chunks[0].capacity - chunks[0].size >= more
  }

  /** Realloc of a block: it stays if it is large enough or can grow, and otherwise moves. */
  lemma ReallocWhere(s: State, p: nat, originalSize: nat, newSize: nat, base: Option<nat>)
    requires newSize > 0
    ensures var r, before, after := Realloc(s, Some(p), originalSize, newSize, base), Align(originalSize), Align(newSize);
            if after <= before then r == Result(s, Some(p))
            else if CanGrow(s.chunks, p + before, after - before) then
              && r.address == Some(p)
              && r.state.chunks == [s.chunks[0].(size := s.chunks[0].size + (after - before))] + s.chunks[1..]
            else
              && r.address == Malloc(s, newSize, base).address
              && r.state.chunks == Malloc(s, newSize, base).state.chunks
  {
    AlignTwice(newSize);
    hide Align, Malloc;
    MallocAligned(s, newSize, base);
    var r, before, after := Realloc(s, Some(p), originalSize, newSize, base), Align(originalSize), Align(newSize);
    if before < after && CanGrow(s.chunks, p + before, after - before) {
      assert r.state.chunks == [s.chunks[0].(size := s.chunks[0].size + (after - before))] + s.chunks[1..];
    }
  }

  lemma MallocAligned(s: State, size: nat, base: Option<nat>)
    requires size > 0
    ensures Malloc(s, Align(size), base) == Malloc(s, size, base)
  {
    AlignTwice(size);
    hide Align;
  }

  /** Realloc returns no memory if and only if none is asked for, or a block that must move, or a new
      one, finds no room and the base allocator has none either. */
  lemma ReallocFails(s: State, pointer: Option<nat>, originalSize: nat, newSize: nat, base: Option<nat>)
    ensures Realloc(s, pointer, originalSize, newSize, base).address.None? <==>
      || newSize == 0
      || ( && (pointer.Some? ==> && Align(originalSize) < Align(newSize)
                                 && !CanGrow(s.chunks, pointer.value + Align(originalSize), Align(newSize) - Align(originalSize)))
           && OutOfRoom(s.chunks, Align(newSize)) && base.None?)
  {
    hide Align, Malloc;
    MallocFails(s, newSize, base);
    if pointer.Some? && newSize > 0 { ReallocWhere(s, pointer.value, originalSize, newSize, base); }
  }

  //////////////////////////////////////////////////////////////////////////////
  // Runs
  //////////////////////////////////////////////////////////////////////////////

  datatype Command =
    | DoMalloc(size: nat, base: Option<nat>)
    | DoRealloc(pointer: Option<nat>, originalSize: nat, newSize: nat, base: Option<nat>)
    | DoClear

  predicate Allowed(s: State, c: Command) {
    match c
    case DoMalloc(size, base) => Honest(s, size, base)
    case DoRealloc(pointer, originalSize, newSize, base) => ReallocAllowed(s, pointer, originalSize, newSize, base)
    case DoClear => true
  }

  function Do(s: State, c: Command): State {
    match c
    case DoMalloc(size, base) => Malloc(s, size, base).state
    case DoRealloc(pointer, originalSize, newSize, base) => Realloc(s, pointer, originalSize, newSize, base).state
    case DoClear => Clear(s)
  }

  predicate AllAllowed(s: State, run: seq<Command>)
    decreases |run|
  {
    run != [] ==> Allowed(s, run[0]) && AllAllowed(Do(s, run[0]), run[1..])
  }

  function Run(s: State, run: seq<Command>): State
    decreases |run|
  {
    if run == [] then s else Run(Do(s, run[0]), run[1..])
  }

  lemma DoKeeps(s: State, c: Command)
    requires Inv(s) && Allowed(s, c)
    ensures Inv(Do(s, c)) && (!c.DoClear? ==> Preserves(s, Do(s, c)))
  {
    hide Inv, Malloc, Realloc, Clear, Honest, ReallocAllowed;
    match c
    case DoMalloc(size, base) => MallocKeeps(s, size, base); MallocPreserves(s, size, base);
    case DoRealloc(pointer, originalSize, newSize, base) => ReallocKeeps(s, pointer, originalSize, newSize, base);
    case DoClear => ClearKeeps(s);
  }

  /** Over every run live blocks are aligned, inside their chunks and pairwise disjoint, and the size
      never exceeds the capacity. */
  lemma {:induction false} RunKeeps(s: State, run: seq<Command>)
    requires Inv(s) && AllAllowed(s, run)
    ensures Inv(Run(s, run)) && TotalSize(Run(s, run).chunks) <= TotalCapacity(Run(s, run).chunks)
    decreases |run|
  {
    hide Allowed, Do;
    if run == [] {
      SizeWithinCapacity(s.chunks);
    } else {
      hide Inv;
      DoKeeps(s, run[0]);
      RunKeeps(Do(s, run[0]), run[1..]);
    }
  }

  /** Until the next Clear every block stays where it is, with the bytes it has. */
  lemma {:induction false} RunPreserves(s: State, run: seq<Command>)
    requires Inv(s) && AllAllowed(s, run) && DoClear !in run
    ensures Preserves(s, Run(s, run))
    decreases |run|
  {
    hide Allowed, Do, Inv;
    if run != [] {
      DoKeeps(s, run[0]);
      RunPreserves(Do(s, run[0]), run[1..]);
      PreservesBoth(s, Do(s, run[0]), Run(s, run));
    }
  }

  lemma PreservesBoth(s: State, t: State, u: State)
    requires Preserves(s, t) && Preserves(t, u)
    ensures Preserves(s, u)
  {
    forall i | 0 <= i < |s.blocks| ensures SameBytes(s.memory, u.memory, s.blocks[i]) {
      assert SameBytes(s.memory, t.memory, s.blocks[i]) && SameBytes(t.memory, u.memory, t.blocks[i]);
    }
  }

  /** A new allocator, with or without a buffer of the user's. */
  function Start(chunkCapacity: nat, buffer: Option<(nat, nat)>, memory: nat -> Byte): State
    requires buffer.Some? ==> buffer.value.1 > HEADER
  {
    State(if buffer.Some? then [Chunk(buffer.value.0, buffer.value.1 - HEADER, 0, true)] else [], chunkCapacity, [], memory)
  }

  lemma StartGood(chunkCapacity: nat, buffer: Option<(nat, nat)>, memory: nat -> Byte)
    requires buffer.Some? ==> buffer.value.1 > HEADER && buffer.value.0 > 0
    ensures Inv(Start(chunkCapacity, buffer, memory))
  {
  }

  //////////////////////////////////////////////////////////////////////////////
  // Alignment
  //////////////////////////////////////////////////////////////////////////////

  predicate AlignedChunks(chunks: seq<Chunk>) {
    forall i | 0 <= i < |chunks| :: chunks[i].address % 8 == 0
  }

  predicate AlignedBlocks(blocks: seq<Block>) {
    forall i | 0 <= i < |blocks| :: blocks[i].address % 8 == 0
  }

  /** A block is 8-aligned if and only if its chunk is. */
  lemma BlockAlignment(b: Block, c: Chunk)
    requires Inside(b, c)
    ensures b.address % 8 == 0 <==> c.address % 8 == 0
  {
    var k := (b.address - c.address) / 8;
    assert b.address == c.address + 8 * k;
  }

  lemma BlocksAligned(s: State)
    requires Inv(s) && AlignedChunks(s.chunks)
    ensures AlignedBlocks(s.blocks)
  {
    forall i | 0 <= i < |s.blocks| ensures s.blocks[i].address % 8 == 0 {
      assert Housed(s.blocks[i], s.chunks);
      var j :| 0 <= j < |s.chunks| && Inside(s.blocks[i], s.chunks[j]);
      BlockAlignment(s.blocks[i], s.chunks[j]);
    }
  }

  lemma {:induction false} KeptAligned(chunks: seq<Chunk>)
    requires AlignedChunks(chunks)
    ensures AlignedChunks(Kept(chunks))
  {
    if chunks != [] && !chunks[0].user { KeptAligned(chunks[1..]); }
  }

  lemma DoAligned(s: State, c: Command)
    requires AlignedChunks(s.chunks) && Allowed(s, c)
    ensures AlignedChunks(Do(s, c).chunks)
  {
    hide Align, BlockAt, Copied;
    if c.DoClear? { KeptAligned(s.chunks); }
  }

  /** If the user's buffer is 8-aligned, or there is none, every block of every run is. */
  lemma {:induction false} RunAligned(s: State, run: seq<Command>)
    requires Inv(s) && AlignedChunks(s.chunks) && AllAllowed(s, run)
    ensures AlignedChunks(Run(s, run).chunks) && AlignedBlocks(Run(s, run).blocks)
    decreases |run|
  {
    hide Allowed, Do, Inv;
    if run == [] {
      BlocksAligned(s);
    } else {
      DoKeeps(s, run[0]);
      DoAligned(s, run[0]);
      RunAligned(Do(s, run[0]), run[1..]);
    }
  }

  /** The first block cut from the user's buffer is 8-aligned if and only if the buffer is. */
  lemma FirstBlock(chunkCapacity: nat, buffer: (nat, nat), memory: nat -> Byte, size: nat, base: Option<nat>)
    requires buffer.0 > 0 && size > 0 && HEADER + Align(size) <= buffer.1
    ensures var r := Malloc(Start(chunkCapacity, Some(buffer), memory), size, base);
            r.address.Some? && (r.address.value % 8 == 0 <==> buffer.0 % 8 == 0)
  {
    var r := Malloc(Start(chunkCapacity, Some(buffer), memory), size, base);
    assert r.address == Some(buffer.0 + HEADER);
  }
}
