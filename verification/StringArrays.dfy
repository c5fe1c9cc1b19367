/** String arrays (code/hand_buffer.c): pointers into one growable buffer, rebased whenever an
    append moved the buffer. */
module StringArrays {
  import opened Bytes
  import opened PowersOfTwo
  import opened GrowableBuffers

  /** A char pointer: the allocation it points into and the offset in it. */
  datatype Ptr = Null | Ptr(base: array<byte>, offset: nat)

  const INITIAL_COUNT := 128

  class StringArray {
    var count: nat
    var max: nat
    var elem: array<Ptr>
    const buffer: GrowableBuffer

    /** The strings appended so far. */
    ghost var strings: seq<seq<byte>>

    ghost predicate Valid()
      reads this, elem, buffer, buffer.memory
    {
      && buffer.Valid()
      && max == elem.Length && IsPow2(max)
      && count == |strings| <= max
      && (forall i :: 0 <= i < count ==>
            elem[i].Ptr? && elem[i].base == buffer.memory && StringAt(buffer.Content(), elem[i].offset, strings[i]))
    }

    constructor ()
      ensures Valid() && strings == []
      ensures fresh(elem) && fresh(buffer) && fresh(buffer.memory)
      ensures buffer.used == 0
    {
      max := INITIAL_COUNT;
      elem := new Ptr[INITIAL_COUNT];
      count, strings := 0, [];
      buffer := new GrowableBuffer();
      new;
      Pow2Plus7(0);
    }

    /** What a reader of the i-th pointer sees: the bytes from there to the next NUL. */
    ghost function Read(i: nat): seq<byte>
      requires i < elem.Length && elem[i].Ptr? && elem[i].offset <= elem[i].base.Length
      reads this, elem, if i < elem.Length && elem[i].Ptr? then {elem[i].base} else {}
    {
      CString(elem[i].base[elem[i].offset..])
    }

    /** reserve_string_array */
    method ReserveElem(room: nat)
      requires Valid() && count + room < 0x4000_0000
      modifies this`max, this`elem
      ensures Valid() && count + room <= max
      ensures elem == old(elem) || fresh(elem)
    {
      var total := count + room;
      if total > max {
        var capacity := NextPowOfTwo(total);
        var grown := new Ptr[capacity];
        for i := 0 to count
          invariant elem == old(elem)
          invariant forall k :: 0 <= k < i ==> grown[k] == elem[k]
        {
          grown[i] := elem[i];
        }
        max, elem := capacity, grown;
      }
    }

    /** The memory has moved: point every element to the same offset of the new memory. */
    method Rebase(memory: array<byte>)
      requires count <= elem.Length
      requires forall k :: 0 <= k < count ==> elem[k].Ptr?
      modifies elem
      ensures forall k :: 0 <= k < count ==> elem[k] == Ptr(memory, old(elem[k].offset))
    {
      for i := 0 to count
        invariant forall k :: 0 <= k < i ==> elem[k] == Ptr(memory, old(elem[k].offset))
        invariant forall k :: i <= k < count ==> elem[k] == old(elem[k])
      {
        elem[i] := Ptr(memory, elem[i].offset);
      }
    }

    /** The last two steps of an append: room for one more pointer, and the pointer. */
    method PushElem(offset: nat, ghost s: seq<byte>)
      requires Valid() && StringAt(buffer.Content(), offset, s) && count + 1 < 0x4000_0000
      modifies this, elem
      ensures Valid() && strings == old(strings) + [s]
      ensures elem == old(elem) || fresh(elem)
    {
      ReserveElem(1);
      elem[count] := Ptr(buffer.memory, offset);
      count := count + 1;
      strings := strings + [s];
    }

    /** append_string_array: each of the two writes may move the buffer. */
    method Append(s: seq<byte>)
      requires Valid() && 0 !in s
      requires buffer.used + |s| + 1 < SIZE_LIMIT && count + 1 < 0x4000_0000
      modifies this, elem, buffer, buffer.memory
      ensures Valid() && strings == old(strings) + [s]
      ensures elem == old(elem) || fresh(elem)
      ensures buffer.memory == old(buffer.memory) || fresh(buffer.memory)
      ensures buffer.used == old(buffer.used) + |s| + 1
    {
      var oldSize, oldPtr := buffer.used, buffer.memory;
      ghost var before := buffer.Content();
      buffer.Write(s);
      buffer.Write([0]);
      assert buffer.Content() == before + (s + [0]);
      if buffer.memory != oldPtr {
        Rebase(buffer.memory);
      }
      forall i | 0 <= i < count ensures StringAt(buffer.Content(), elem[i].offset, strings[i]) {
        StringAtAppend(before, s + [0], elem[i].offset, strings[i]);
      }
      StringAtEnd(before, s);
      PushElem(oldSize, s);
    }
  }

  lemma StringAtEnd(memory: seq<byte>, s: seq<byte>)
    requires 0 !in s
    ensures StringAt(memory + (s + [0]), |memory|, s)
  {
  }

  lemma StringAtAppend(memory: seq<byte>, more: seq<byte>, offset: nat, s: seq<byte>)
    requires StringAt(memory, offset, s)
    ensures StringAt(memory + more, offset, s)
  {
    assert (memory + more)[offset..offset + |s|] == memory[offset..offset + |s|];
  }

  /** Every pointer of a valid array reads as the string appended at its position. */
  lemma ElementsReadBack(a: StringArray, i: nat)
    requires a.Valid() && i < a.count
    ensures a.Read(i) == a.strings[i]
  {
    var memory := a.buffer.memory[..];
    var content := a.buffer.Content();
    assert memory == content + memory[|content|..];
    StringAtAppend(content, memory[|content|..], a.elem[i].offset, a.strings[i]);
    StringAtIsCString(memory, a.elem[i].offset, a.strings[i]);
  }
}
