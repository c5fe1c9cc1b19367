/** The growable buffer (code/hand_buffer.c): NUL-terminated bytes in memory that is reallocated
    at the next power of two. */
module GrowableBuffers {
  import opened Bytes
  import opened PowersOfTwo

  const INITIAL_SIZE := 4096
  const SIZE_LIMIT := 0x8000_0000_0000_0000

  class GrowableBuffer {
    var used: nat
    var max: nat
    var memory: array<byte>

    /** The most that was ever asked for, and the bytes copied by all reallocations so far. */
    ghost var demand: nat
    ghost var moved: nat

    /** Everything but the NUL after the content. */
    ghost predicate Sized()
      reads this
    {
      && max == memory.Length
      && used < max
      && IsPow2(max)
      && used <= demand < max
      && (max == INITIAL_SIZE || max < 2 * (demand + 1))
      && moved + INITIAL_SIZE <= max
    }

    ghost predicate Valid()
      reads this, memory
    {
      Sized() && memory[used] == 0
    }

    ghost function Content(): (s: seq<byte>)
      requires Sized()
      ensures |s| == used
      reads this, memory
    {
      memory[..used]
    }

    constructor ()
      ensures Valid() && fresh(memory)
      ensures Content() == [] && max == 4096 && demand == 0 && moved == 0
    {
      memory := new byte[INITIAL_SIZE](_ => 0);
      used, max, demand, moved := 0, INITIAL_SIZE, 0, 0;
      new;
      Pow2Of4096();
    }

    /** reserve_growable_buffer: room for size more bytes and the NUL. */
    method Reserve(size: nat)
      requires Sized() && used + size < SIZE_LIMIT
      modifies this
      ensures Sized() && used == old(used) && Content() == old(Content())
      ensures old(Valid()) ==> Valid()
      ensures memory == old(memory) || fresh(memory)
      ensures used + size < max
      ensures demand == if used + size > old(demand) then used + size else old(demand)
    {
      var total := used + size + 1;
      if total > max {
        var capacity := NextPowOfTwo(total);
        SmallerPow2IsAtMostHalf(max, capacity);
        var grown := new byte[capacity](_ => 0);
        CopyMemory(grown, 0, memory[..used]);
        grown[used] := 0;
        moved := moved + used;
        max := capacity;
        assert grown[..used] == memory[..used];
        memory := grown;
      }
      demand := if used + size > demand then used + size else demand;
    }

    /** write_growable_buffer */
    method Write(data: seq<byte>)
      requires Valid() && used + |data| < SIZE_LIMIT
      modifies this, memory
      ensures Valid() && Content() == old(Content()) + data
      ensures memory == old(memory) || fresh(memory)
      ensures demand == if used > old(demand) then used else old(demand)
    {
      hide IsPow2;
      Reserve(|data|);
      ghost var kept := memory[..used];
      CopyMemory(memory, used, data);
      assert memory[..used + |data|] == kept + data;
      used := used + |data|;
      memory[used] := 0;
    }

    /** null_terminate */
    method NullTerminate()
      requires Sized() && used < SIZE_LIMIT
      modifies this, memory
      ensures Valid() && Content() == old(Content())
      ensures memory == old(memory) || fresh(memory)
    {
      hide IsPow2;
      Reserve(0);
      ghost var content := memory[..used];
      memory[used] := 0;
      assert memory[..used] == content;
    }

    /** clear_growable_buffer */
    method Clear()
      requires Valid()
      modifies this, memory
      ensures Valid() && Content() == []
      ensures memory == old(memory) || fresh(memory)
    {
      hide IsPow2;
      used := 0;
      NullTerminate();
    }

    /** The bytes of a file, read into room that was reserved for them. */
    method Read(file: seq<byte>)
      requires Sized() && used == 0 && |file| < max && |file| <= demand
      modifies this`used, memory
      ensures Sized() && Content() == file
    {
      hide IsPow2;
      CopyMemory(memory, used, file);
      assert memory[..|file|] == file;
      used := used + |file|;
    }
  }

  /** read_entire_file: a file that cannot be opened reads as the empty one. */
  method ReadEntireFile(file: seq<byte>) returns (buffer: GrowableBuffer)
    requires |file| + 1 < SIZE_LIMIT
    ensures fresh(buffer) && fresh(buffer.memory) && buffer.Valid() && buffer.Content() == file
  {
    hide IsPow2;
    buffer := new GrowableBuffer();
    buffer.Reserve(|file|);
    buffer.Read(file);
    buffer.NullTerminate();
  }

  lemma Pow2Of4096()
    ensures IsPow2(4096)
  {
    Pow2Plus7(0);
    assert Pow2(12) == 32 * Pow2(7) by {
      assert Pow2(9) == 4 * Pow2(7);
      assert Pow2(11) == 4 * Pow2(9);
    }
  }

  function Total(chunks: seq<seq<byte>>): seq<byte> {
    if chunks == [] then [] else Total(chunks[..|chunks| - 1]) + chunks[|chunks| - 1]
  }

  lemma {:induction false} TotalPrefix(chunks: seq<seq<byte>>, i: nat)
    requires i <= |chunks|
    ensures |Total(chunks[..i])| <= |Total(chunks)|
    decreases |chunks|
  {
    if i == |chunks| {
      assert chunks[..i] == chunks;
    } else {
      assert chunks[..|chunks| - 1][..i] == chunks[..i];
      TotalPrefix(chunks[..|chunks| - 1], i);
    }
  }

  /** Any run of writes into a new buffer: the content is all the data in order, the capacity is a
      power of two that is the initial one or below twice what is needed, and all reallocations
      together copied fewer bytes than the final capacity. */
  method WriteAll(chunks: seq<seq<byte>>) returns (buffer: GrowableBuffer)
    requires |Total(chunks)| < SIZE_LIMIT
    ensures fresh(buffer) && buffer.Valid()
    ensures buffer.Content() == Total(chunks) && buffer.memory[|Total(chunks)|] == 0
    ensures IsPow2(buffer.max) && (buffer.max == INITIAL_SIZE || buffer.max < 2 * (|Total(chunks)| + 1))
    ensures buffer.moved < buffer.max
  {
    buffer := new GrowableBuffer();
    var i := 0;
    while i < |chunks|
      invariant i <= |chunks| && fresh(buffer) && fresh(buffer.memory)
      invariant buffer.Valid() && buffer.Content() == Total(chunks[..i]) && buffer.demand == buffer.used
    {
      assert chunks[..i + 1][..i] == chunks[..i];
      TotalPrefix(chunks, i + 1);
      buffer.Write(chunks[i]);
      i := i + 1;
    }
    assert chunks[..i] == chunks;
  }
}
