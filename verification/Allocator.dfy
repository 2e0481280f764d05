/** MemoryPoolAllocator: the chunk list, and the memory it hands out, as mutable state. */
module Allocators {
  import opened Ascii
  import opened Events
  import opened Pool

  class MemoryPoolAllocator {
    var chunks: seq<Chunk>
    const chunkCapacity: nat
    var memory: nat -> Byte
    ghost var blocks: seq<Block>

    ghost function Now(): State
      reads this
    {
      State(chunks, chunkCapacity, blocks, memory)
    }

    constructor (chunkCapacity: nat, buffer: Option<(nat, nat)>, memory: nat -> Byte)
      requires buffer.Some? ==> buffer.value.1 > HEADER && buffer.value.0 > 0
      ensures Now() == Start(chunkCapacity, buffer, memory) && Inv(Now())
    {
      this.chunkCapacity, this.memory, blocks := chunkCapacity, memory, [];
      if buffer.Some? {
        chunks := [Chunk(buffer.value.0, buffer.value.1 - HEADER, 0, true)];
      } else {
        chunks := [];
      }
      new;
      StartGood(chunkCapacity, buffer, memory);
    }

    method AddChunk(capacity: nat, base: Option<nat>) returns (ok: bool)
      modifies this`chunks
      ensures ok == base.Some?
      ensures chunks == if ok then [Chunk(base.value, capacity, 0, false)] + old(chunks) else old(chunks)
    {
      if base.Some? {
        chunks := [Chunk(base.value, capacity, 0, false)] + chunks;
      }
      return base.Some?;
    }

    method Malloc(size: nat, base: Option<nat>) returns (address: Option<nat>)
      requires Inv(Now()) && Honest(Now(), size, base)
      modifies this
      ensures Result(Now(), address) == Pool.Malloc(old(Now()), size, base)
      ensures Inv(Now()) && Preserves(old(Now()), Now())
    {
      hide Inv, Preserves, Honest, Align;
      MallocKeeps(Now(), size, base);
      MallocPreserves(Now(), size, base);
      if size == 0 {
        return None;
      }
      var size := Align(size);
      if chunks == [] || chunks[0].size + size > chunks[0].capacity {
        var ok := AddChunk(if chunkCapacity > size then chunkCapacity else size, base);
        if !ok {
          return None;
        }
      }
      var buffer := Used(chunks[0]);
      blocks := blocks + [Block(buffer, size)];
      chunks := chunks[0 := chunks[0].(size := chunks[0].size + size)];
      return Some(buffer);
    }

    method Realloc(pointer: Option<nat>, originalSize: nat, newSize: nat, base: Option<nat>) returns (address: Option<nat>)
      requires Inv(Now()) && ReallocAllowed(Now(), pointer, originalSize, newSize, base)
      modifies this
      ensures Result(Now(), address) == Pool.Realloc(old(Now()), pointer, originalSize, newSize, base)
      ensures Inv(Now()) && Preserves(old(Now()), Now())
    {
      hide Inv, Preserves, Honest, Align, Pool.Malloc, Truthful;
      ReallocKeeps(Now(), pointer, originalSize, newSize, base);
      if pointer.None? {
        address := Malloc(newSize, base);
        return;
      }
      if newSize == 0 {
        return None;
      }
      HonestAligned(Now(), newSize, base);
      var original, size := Align(originalSize), Align(newSize);
      if original >= size {
        return pointer;
      }
      if chunks != [] && pointer.value == Used(chunks[0]) - original {
        var increment := size - original;
        if chunks[0].size + increment <= chunks[0].capacity {
          ghost var i := BlockAt(blocks, pointer.value);
          blocks := if i < |blocks| then blocks[i := Block(pointer.value, size)] else blocks;
          chunks := chunks[0 := chunks[0].(size := chunks[0].size + increment)];
          return pointer;
        }
      }
      MallocKeeps(Now(), size, base);
      address := Malloc(size, base);
      if address.Some? {
        memory := Copied(memory, address.value, pointer.value, original);
      }
    }

    method Clear()
      requires Inv(Now())
      modifies this
      ensures Now() == Pool.Clear(old(Now())) && Inv(Now())
    {
      ClearKeeps(Now());
      hide Inv;
      while chunks != [] && !chunks[0].user
        invariant Kept(chunks) == Kept(old(chunks)) && memory == old(memory)
        decreases |chunks|
      {
        chunks := chunks[1..];
      }
      if chunks != [] && chunks[0].user {
        chunks := chunks[0 := chunks[0].(size := 0)];
      }
      blocks := [];
    }

    method Capacity() returns (capacity: nat)
      ensures capacity == TotalCapacity(chunks)
    {
      capacity := 0;
      var c := 0;
      assert chunks[0..] == chunks;
      while c < |chunks|
        invariant 0 <= c <= |chunks| && capacity + TotalCapacity(chunks[c..]) == TotalCapacity(chunks)
      {
        assert chunks[c..][1..] == chunks[c + 1..];
        capacity := capacity + chunks[c].capacity;
        c := c + 1;
      }
    }

    method Size() returns (size: nat)
      ensures size == TotalSize(chunks)
      ensures Inv(Now()) ==> size <= TotalCapacity(chunks)
    {
      size := 0;
      var c := 0;
      assert chunks[0..] == chunks;
      while c < |chunks|
        invariant 0 <= c <= |chunks| && size + TotalSize(chunks[c..]) == TotalSize(chunks)
      {
        assert chunks[c..][1..] == chunks[c + 1..];
        size := size + chunks[c].size;
        c := c + 1;
      }
      if Inv(Now()) { SizeWithinCapacity(chunks); }
    }
  }
}
