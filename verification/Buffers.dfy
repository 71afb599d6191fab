/**
  The output buffers. Characters and spans are appended to the free space of a fixed array; a full buffer either
  moves into a vector that grows, or hands its contents to a writer and starts again. Either way what was appended
  is kept as one sequence.
 */
module Buffers {
  import opened Texts

  class ExpandingBuffer {
    const staticSize: nat
    const basic: array<char>
    var extended: seq<char>
    // The free space: where it begins in the storage in use; it ends where that ends.
    var start: nat
    var size: nat

    ghost predicate Valid()
      reads this
    {
      && 0 < staticSize == basic.Length
      && start < StorageSize()
    }

    /** The array, or the vector once there is one. */
    function StorageSize(): nat
      reads this
    {
      if extended == [] then basic.Length else |extended|
    }

    /** What the buffer is read as. */
    function View(): string
      requires start <= StorageSize()
      reads this, basic
    {
      if extended == [] then basic[..start] else extended[..start]
    }

    function RemainingSpace(): nat
      requires start <= StorageSize()
      reads this
    {
      StorageSize() - start
    }

    constructor (staticSize: nat)
      requires 0 < staticSize
      ensures Valid() && fresh(basic)
      ensures View() == [] && size == 0
    {
      this.staticSize := staticSize;
      basic := new char[staticSize](_ => '\0');
      extended, start, size := [], 0, 0;
    }

    /** The move into the vector, or its doubling, when no space is left. */
    method BufferFull()
      requires 0 < staticSize == basic.Length && start == StorageSize()
      modifies this`extended, this`start
      ensures Valid() && View() == old(View())
      ensures StorageSize() == if old(extended) == [] then 3 * staticSize else 2 * old(StorageSize())
    {
      if extended == [] {
        extended := basic[..] + seq(2 * staticSize, _ => '\0');
        start := staticSize;
      } else {
        var oldSize := |extended|;
        extended := extended + seq(oldSize, _ => '\0');
        start := oldSize;
      }
    }

    /** Puts characters into the free space. */
    method Put(part: string)
      requires 0 < staticSize == basic.Length && |part| <= StorageSize() - start && start <= StorageSize()
      modifies this`extended, this`start, this`size, basic
      ensures StorageSize() == old(StorageSize()) && start == old(start) + |part| && size == old(size) + |part|
      ensures View() == old(View()) + part
    {
      if extended == [] {
        forall i | 0 <= i < |part| { basic[start + i] := part[i]; }
      } else {
        extended := extended[..start] + part + extended[start + |part|..];
      }
      start := start + |part|;
      size := size + |part|;
    }

    method AppendChar(added: char)
      requires Valid()
      modifies this, basic
      ensures Valid() && View() == old(View()) + [added] && size == old(size) + 1
    {
      Put([added]);
      if RemainingSpace() == 0 { BufferFull(); }
    }

    method AppendSpan(added: string)
      requires Valid()
      modifies this, basic
      ensures Valid() && View() == old(View()) + added && size == old(size) + |added|
    {
      ghost var before := View();
      assert before + added[..0] == before;
      var position := 0;
      while position < |added|
        invariant position <= |added| && Valid()
        invariant View() == before + added[..position] && size == old(size) + position
      {
        var toCopy := Min(|added| - position, RemainingSpace());
        Put(added[position..position + toCopy]);
        if RemainingSpace() == 0 { BufferFull(); }
        position := position + toCopy;
      }
      assert added[..position] == added;
    }

    /** Forgets the contents; the count goes on. */
    method Clear()
      requires Valid()
      modifies this`extended, this`start
      ensures Valid() && View() == []
    {
      extended, start := [], 0;
    }
  }

  class StreamingBuffer {
    const basic: array<char>
    var start: nat
    var size: nat
    var sizeAtLastFlush: nat
    // What the writer was given.
    var written: seq<string>

    ghost predicate Valid()
      reads this
    {
      && start < basic.Length
      && size == sizeAtLastFlush + start
    }

    function Pending(): string
      requires start <= basic.Length
      reads this, basic
    {
      basic[..start]
    }

    /** Everything that was appended. */
    function Total(): string
      requires start <= basic.Length
      reads this, basic
    {
      Join(written) + Pending()
    }

    /** Spans are handed over when the buffer is full. */
    predicate WrittenInFull()
      reads this
    {
      forall i :: 0 <= i < |written| ==> |written[i]| == basic.Length
    }

    constructor (staticSize: nat)
      requires 0 < staticSize
      ensures Valid() && fresh(basic) && basic.Length == staticSize
      ensures Total() == [] && size == 0 && written == [] && WrittenInFull()
    {
      basic := new char[staticSize](_ => '\0');
      start, size, sizeAtLastFlush, written := 0, 0, 0, [];
    }

    method Flush()
      requires start <= basic.Length && size == sizeAtLastFlush + start
      modifies this`sizeAtLastFlush, this`written
      ensures sizeAtLastFlush == size
      ensures written == old(written) + if start > 0 then [old(Pending())] else []
      ensures Join(written) == old(Total())
    {
      if size > sizeAtLastFlush {
        JoinMore(written, basic[..size - sizeAtLastFlush]);
        written := written + [basic[..size - sizeAtLastFlush]];
        sizeAtLastFlush := size;
      }
    }

    method BufferFull()
      requires 0 < start == basic.Length && size == sizeAtLastFlush + start
      modifies this`sizeAtLastFlush, this`written, this`start
      ensures Valid() && Total() == old(Total())
      ensures old(WrittenInFull()) ==> WrittenInFull()
    {
      Flush();
      sizeAtLastFlush := size;
      start := 0;
    }

    method Put(part: string)
      requires start <= basic.Length && |part| <= basic.Length - start && size == sizeAtLastFlush + start
      modifies this`start, this`size, basic
      ensures start == old(start) + |part| && size == old(size) + |part|
      ensures Total() == old(Total()) + part
    {
      forall i | 0 <= i < |part| { basic[start + i] := part[i]; }
      start := start + |part|;
      size := size + |part|;
      assert Pending() == old(Pending()) + part;
    }

    method AppendChar(added: char)
      requires Valid()
      modifies this, basic
      ensures Valid() && Total() == old(Total()) + [added] && size == old(size) + 1
      ensures old(WrittenInFull()) ==> WrittenInFull()
    {
      Put([added]);
      if start == basic.Length { BufferFull(); }
    }

    method AppendSpan(added: string)
      requires Valid()
      modifies this, basic
      ensures Valid() && Total() == old(Total()) + added && size == old(size) + |added|
      ensures old(WrittenInFull()) ==> WrittenInFull()
    {
      hide Join;
      ghost var before := Total();
      assert before + added[..0] == before;
      var position := 0;
      while position < |added|
        invariant position <= |added| && Valid()
        invariant Total() == before + added[..position] && size == old(size) + position
        invariant old(WrittenInFull()) ==> WrittenInFull()
      {
        var toCopy := Min(|added| - position, basic.Length - start);
        Put(added[position..position + toCopy]);
        if start == basic.Length { BufferFull(); }
        position := position + toCopy;
      }
      assert added[..position] == added;
    }

    /** The destructor hands over the rest. */
    method Destroy()
      requires Valid()
      modifies this`sizeAtLastFlush, this`written
      ensures written == old(written) + if start > 0 then [old(Pending())] else []
      ensures Join(written) == old(Total())
    {
      Flush();
    }
  }
}
