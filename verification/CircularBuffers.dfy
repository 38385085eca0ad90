// The power-of-two ring buffer (circular_buffer.c), as a class over a window of an array it may share.

module CircularBuffers {
  import opened AscException
  import opened Mask
  import opened Sequences
  import opened Resync

  /** What get_blocks returns: offsets into the array and the two sizes it computes (in size_t arithmetic). */
  datatype Blocks = Blocks(count: nat, offset0: nat, size0: nat, offset1: nat, size1: nat)

  class CircularBuffer {
    const buffer: array<byte>
    const base: nat      // the C pointer is &buffer[base]
    const capacity: nat
    var size: nat
    var iStart: nat
    var iStop: nat

    ghost predicate Valid()
      reads this
    {
      && IsPow2(capacity)
      && base + capacity <= buffer.Length
      && size <= capacity
      && iStart < capacity
      && iStop == Wrap(iStart + size, capacity)
    }

    ghost function Window(): seq<byte>
      requires base + capacity <= buffer.Length
      reads buffer
    {
      buffer[base..base + capacity]
    }

    /** The logical contents, front first. */
    ghost function Contents(): (s: seq<byte>)
      requires Valid()
      reads this, buffer
      ensures |s| == size <= capacity && iStart < capacity
    {
      Unroll(Window(), iStart, size)
    }

    /** The bytes of the shared array that are not this ring's. */
    ghost function Outside(): (seq<byte>, seq<byte>)
      requires base + capacity <= buffer.Length
      reads buffer
    {
      (buffer[..base], buffer[base + capacity..])
    }

    constructor Storage(capacity: nat, buffer: array<byte>, base: nat)
      requires IsPow2(capacity) && base + capacity <= buffer.Length
      ensures this.buffer == buffer && this.base == base && this.capacity == capacity
      ensures Valid() && size == 0 && iStart == 0
    {
      this.buffer, this.base, this.capacity := buffer, base, capacity;
      size, iStart, iStop := 0, 0, 0;
    }

    static method Init(capacity: nat, buffer: array<byte>, base: nat) returns (r: Result<CircularBuffer>)
      requires base + capacity <= buffer.Length && capacity < Pow2(SIZE_BITS)
      modifies buffer
      ensures !IsPow2(capacity) ==> r == Throw(CbBadCapacity) && buffer[..] == old(buffer[..])
      ensures IsPow2(capacity) ==>
        && r.Ok? && fresh(r.value) && r.value.Valid() && r.value.Contents() == [] && r.value.iStart == 0
        && r.value.buffer == buffer && r.value.base == base && r.value.capacity == capacity
        && r.value.Outside() == old((buffer[..base], buffer[base + capacity..]))
        && forall k :: base <= k < base + capacity ==> buffer[k] == 0x40
    {
      hide IsPow2, Pow2, And;
      PowerOfTwoTestExact(capacity, SIZE_BITS);
      if !PowerOfTwoTest(capacity, SIZE_BITS) {
        return Throw(CbBadCapacity);
      }
      var ring := new CircularBuffer.Storage(capacity, buffer, base);
      for i := 0 to capacity
        modifies buffer
        invariant buffer[..base] == old(buffer[..base])
        invariant buffer[base + capacity..] == old(buffer[base + capacity..])
        invariant forall k :: base <= k < base + i ==> buffer[k] == 0x40
      {
        buffer[base + i] := 0x40;
      }
      return Ok(ring);
    }

    method IncStart()
      requires IsPow2(capacity) && iStart < capacity
      modifies this`iStart
      ensures iStart == Wrap(old(iStart) + 1, capacity)
    {
      MaskWraps(iStart + 1, capacity);
      iStart := And(iStart + 1, capacity - 1);
    }

    method IncStop()
      requires IsPow2(capacity) && iStop < capacity
      modifies this`iStop
      ensures iStop == Wrap(old(iStop) + 1, capacity)
    {
      MaskWraps(iStop + 1, capacity);
      iStop := And(iStop + 1, capacity - 1);
    }

    method DecStart()
      requires IsPow2(capacity) && iStart < capacity
      modifies this`iStart
      ensures iStart == if old(iStart) == 0 then capacity - 1 else old(iStart) - 1
    {
      if iStart == 0 {
        iStart := capacity - 1;
      } else {
        MaskWraps(iStart - 1, capacity);
        iStart := And(iStart - 1, capacity - 1);
      }
    }

    method DecStop()
      requires IsPow2(capacity) && iStop < capacity
      modifies this`iStop
      ensures iStop == if old(iStop) == 0 then capacity - 1 else old(iStop) - 1
    {
      if iStop == 0 {
        iStop := capacity - 1;
      } else {
        MaskWraps(iStop - 1, capacity);
        iStop := And(iStop - 1, capacity - 1);
      }
    }

    /** One past the back is the front plus the size, modulo the capacity. */
    lemma StopIsModulus()
      requires Valid()
      ensures iStop == (iStart + size) % capacity
    {
      WrapIsModulus(iStart + size, capacity);
    }

    /** Elements a..b are adjacent in the array when they do not reach its end. */
    lemma StraightSlice(a: nat, b: nat)
      requires Valid() && a <= b <= size && iStart + b <= capacity
      ensures Contents()[a..b] == buffer[base + iStart + a..base + iStart + b]
    {
      hide Unroll, IsPow2;
      UnrollStraight(Window(), iStart, size, a, b);
      SliceOfSlice(buffer[..], base, base + capacity, iStart + a, iStart + b);
    }

    /** Elements a..b that cross the end of the array continue at its front. */
    lemma AcrossSlice(a: nat, b: nat)
      requires Valid() && a <= b <= size && iStart + a <= capacity <= iStart + b
      ensures Contents()[a..b]
        == buffer[base + iStart + a..base + capacity] + buffer[base..base + iStart + b - capacity]
    {
      hide Unroll, IsPow2;
      UnrollAcross(Window(), iStart, size, a, b);
      SliceOfSlice(buffer[..], base, base + capacity, iStart + a, capacity);
      SliceOfSlice(buffer[..], base, base + capacity, 0, iStart + b - capacity);
    }

    method GetElement(iElement: nat) returns (r: Result<byte>)
      requires Valid()
      ensures r == if iElement < |Contents()| then Ok(Contents()[iElement]) else Throw(CbOob)
    {
      if iElement >= size {
        return Throw(CbOob);
      }
      MaskWraps(iStart + iElement, capacity);
      var iResult := And(iStart + iElement, capacity - 1);
      return Ok(buffer[base + iResult]);
    }

    method PushFront(element: byte)
      requires Valid()
      modifies this, buffer
      ensures Valid() && Outside() == old(Outside())
      ensures Contents() == PushedFront(old(Contents()), element, capacity)
    {
      hide Unroll, IsPow2, PushedFront;
      UnrollPushFront(Window(), iStart, size, element);
      DecStart();
      ghost var w := Window();
      buffer[base + iStart] := element;
      assert Window() == w[iStart := element];
      if size == capacity {
        DecStop();
      } else {
        size := size + 1;
      }
    }

    method PushBack(element: byte)
      requires Valid()
      modifies this, buffer
      ensures Valid() && Outside() == old(Outside())
      ensures Contents() == PushedBack(old(Contents()), element, capacity)
      ensures iStart == if old(size) < capacity then old(iStart) else Wrap(old(iStart) + 1, capacity)
    {
      ghost var w := Window();
      hide Unroll, IsPow2, PushedBack;
      UnrollPushBack(w, iStart, size, element);
      buffer[base + iStop] := element;
      assert Window() == w[iStop := element];
      IncStop();
      if size == capacity {
        IncStart();
      } else {
        size := size + 1;
      }
    }

    method PopFront() returns (r: Result<byte>)
      requires Valid()
      modifies this
      ensures Valid()
      ensures old(size) == 0 ==> r == Throw(CbPopEmpty) && unchanged(this)
      ensures old(size) > 0 ==> r == Ok(old(Contents())[0]) && Contents() == old(Contents())[1..]
      ensures old(size) > 0 ==> iStart == Wrap(old(iStart) + 1, capacity)
    {
      if size == 0 {
        return Throw(CbPopEmpty);
      }
      UnrollIndex(Window(), iStart, size, 0);
      UnrollDrop(Window(), iStart, size, 1);
      UnrollNone(Window(), Wrap(iStart + 1, capacity));
      hide Unroll, IsPow2;
      var result := buffer[base + iStart];
      IncStart();
      size := size - 1;
      return Ok(result);
    }

    method PopBack() returns (r: Result<byte>)
      requires Valid()
      modifies this
      ensures Valid()
      ensures old(size) == 0 ==> r == Throw(CbPopEmpty) && unchanged(this)
      ensures old(size) > 0 ==>
        && r == Ok(old(Contents())[old(size) - 1])
        && Contents() == old(Contents())[..old(size) - 1]
    {
      if size == 0 {
        return Throw(CbPopEmpty);
      }
      UnrollIndex(Window(), iStart, size, size - 1);
      UnrollTake(Window(), iStart, size, size - 1);
      hide Unroll, IsPow2;
      DecStop();
      size := size - 1;
      var result := buffer[base + iStop];
      return Ok(result);
    }

    /** Pops n elements that are known to be there, as the source's counting loops do. */
    method PopMany(n: nat)
      requires Valid() && n <= size
      modifies this
      ensures Valid() && Contents() == old(Contents())[n..]
    {
      hide *;
      for i := 0 to n
        invariant Valid() && Contents() == old(Contents())[i..]
      {
        var _ := PopFront();
      }
    }

    method RemoveFrontTo(value: byte, inclusive: bool)
      requires Valid()
      modifies this
      ensures Valid()
      ensures var c, i := old(Contents()), FindFirst(old(Contents()), value);
        Contents() == if inclusive && i < |c| then c[i + 1..] else c[i..]
    {
      hide *;
      ghost var k := 0;
      while size > 0
        invariant Valid() && k <= |old(Contents())| && Contents() == old(Contents())[k..]
        invariant value !in old(Contents())[..k]
        decreases size
      {
        var iValue := GetElement(0);
        if iValue.value == value {
          FindFirstUnique(old(Contents()), value, k);
          if inclusive {
            var _ := PopFront();
          }
          return;
        } else {
          var _ := PopFront();
          k := k + 1;
        }
      }
      FindFirstAbsent(old(Contents()), value);
    }

    method RemoveBackTo(value: byte, inclusive: bool)
      requires Valid()
      modifies this
      ensures Valid()
      ensures var c, i := old(Contents()), FindLast(old(Contents()), value);
        Contents() == if i == |c| then [] else if inclusive then c[..i] else c[..i + 1]
    {
      hide *;
      ghost var k: int := size;
      while size > 0
        invariant Valid() && 0 <= k <= |old(Contents())| && Contents() == old(Contents())[..k]
        invariant value !in old(Contents())[k..]
        decreases size
      {
        var iValue := GetElement(size - 1);
        if iValue.value == value {
          FindLastUnique(old(Contents()), value, k - 1);
          if inclusive {
            var _ := PopBack();
          }
          return;
        } else {
          var _ := PopBack();
          k := k - 1;
        }
      }
    }

    method FindFirstElement(value: byte) returns (i: nat)
      requires Valid()
      ensures i == FindFirst(Contents(), value)
    {
      hide *;
      i := 0;
      while i < size
        invariant i <= size && value !in Contents()[..i]
      {
        var iValue := GetElement(i);
        if iValue.value == value {
          FindFirstUnique(Contents(), value, i);
          return i;
        }
        i := i + 1;
      }
      assert Contents()[..i] == Contents();
      FindFirstAbsent(Contents(), value);
      return size;
    }

    method FindLastElement(value: byte) returns (i: nat)
      requires Valid()
      ensures i == FindLast(Contents(), value)
    {
      hide *;
      i := size;
      while i > 0
        invariant i <= size && value !in Contents()[i..]
      {
        i := i - 1;
        var iValue := GetElement(i);
        if iValue.value == value {
          FindLastUnique(Contents(), value, i);
          return i;
        }
      }
      return size;
    }

    method CountElement(value: byte) returns (n: nat)
      requires Valid()
      ensures n == Count(Contents(), value)
    {
      n := 0;
      for i := 0 to size
        invariant n == Count(Contents()[..i], value)
      {
        var iValue := GetElement(i);
        if iValue.value == value {
          n := n + 1;
        }
        assert Contents()[..i + 1][..i] == Contents()[..i];
      }
      assert Contents()[..size] == Contents();
    }

    /** Length of the part of the contents that lies before the end of the array. */
    function FirstBlockSize(): (n: nat)
      requires Valid()
      reads this
      ensures n <= size && iStart + n <= capacity && (n == size || iStart + n == capacity)
      ensures 0 < size ==> 0 < n
    {
      if iStart + size > capacity then capacity - iStart else size
    }

    method GetFirstBlock() returns (offset: nat, n: nat)
      requires Valid()
      ensures n <= size && base <= offset && offset + n <= base + capacity
      ensures n == size || offset + n == base + capacity
      ensures n == FirstBlockSize() && buffer[offset..offset + n] == Contents()[..n]
    {
      offset := base + iStart;
      StraightSlice(0, FirstBlockSize());
      if iStart + size > capacity {
        n := capacity - iStart;
      } else {
        n := size;
      }
    }

    method DeleteFirstBlock() returns (n: nat)
      requires Valid()
      modifies this
      ensures Valid()
      ensures n <= old(size) && old(iStart) + n <= capacity && (n == old(size) || old(iStart) + n == capacity)
      ensures n == old(FirstBlockSize()) && Contents() == old(Contents())[n..]
    {
      if iStart + size > capacity {
        n := capacity - iStart;
        PopMany(n);
      } else {
        n := size;
        size, iStart, iStop := 0, 0, 0;
      }
    }

    method PushBackBlock(source: seq<byte>)
      requires Valid()
      modifies this, buffer
      ensures Valid() && Outside() == old(Outside())
      ensures Contents() == PushedAll(old(Contents()), source, capacity)
      ensures iStart == FrontAfter(old(iStart), old(size), |source|, capacity)
    {
      assert 0 < capacity;
      hide *;
      ghost var c, front := Contents(), iStart;
      PushedAllNone(c, source, capacity);
      FrontNone(front, |c|, capacity);
      for i := 0 to |source|
        invariant Valid() && Outside() == old(Outside())
        invariant Contents() == PushedAll(c, source[..i], capacity)
        invariant iStart == FrontAfter(front, |c|, i, capacity)
      {
        PushedAllNext(c, source, i, capacity);
        PushedAllSize(c, source[..i], capacity);
        FrontNext(front, |c|, i, capacity);
        PushBack(source[i]);
      }
      assert source[..|source|] == source;
    }

    method PopFrontBlock(destination: array<byte>) returns (n: nat)
      requires Valid() && destination != buffer
      modifies this, destination
      ensures Valid()
      ensures n == if destination.Length < old(FirstBlockSize()) then destination.Length else old(FirstBlockSize())
      ensures n <= old(size) && (n == destination.Length || n == old(size) || old(iStart) + n == capacity)
      ensures destination[..n] == old(Contents())[..n] && destination[n..] == old(destination[n..])
      ensures Contents() == old(Contents())[n..]
    {
      hide Unroll, IsPow2;
      var outBlock := base + iStart;
      var nBlock;
      if iStart + size > capacity {
        nBlock := capacity - iStart;
      } else {
        nBlock := size;
      }
      n := if destination.Length < nBlock then destination.Length else nBlock;
      for i := 0 to n
        modifies destination
        invariant destination[..i] == buffer[outBlock..outBlock + i]
        invariant destination[n..] == old(destination[n..])
      {
        destination[i] := buffer[outBlock + i];
      }
      StraightSlice(0, n);
      DiscardFront(n);
    }

    /** The index update that ends pop_front_block. */
    method DiscardFront(n: nat)
      requires Valid() && n <= size
      modifies this
      ensures Valid() && Contents() == old(Contents())[n..]
    {
      hide Unroll, IsPow2;
      UnrollDrop(Window(), iStart, size, n);
      size := size - n;
      if size == 0 {
        iStart := 0;
        iStop := 0;
      } else {
        MaskWraps(iStart + n, capacity);
        iStart := And(iStart + n, capacity - 1);
      }
    }

    method Clear()
      modifies this
      requires Valid()
      ensures Valid() && Contents() == [] && iStart == 0
    {
      size := 0;
      iStart := 0;
      iStop := 0;
    }

    method RemoveFrontUnfinishedFrames(startChar: byte, endChar: byte) returns (removed: nat)
      requires Valid()
      modifies this
      ensures Valid() && Contents() == Clean(old(Contents()), startChar, endChar)
      ensures removed == Reported(old(Contents()), startChar, endChar)
      decreases size
    {
      hide *;
      ghost var c := Contents();
      var iEnd := FindFirstElement(endChar);
      if iEnd >= size {
        CleanNoEnd(c, startChar, endChar);
        removed := KeepLastStart(startChar);
        return;
      }
      if iEnd == 0 {
        assert c[..iEnd] == [];
        DropLine(c, iEnd, startChar, endChar);
        var _ := PopFront();
        removed := RemoveFrontUnfinishedFrames(startChar, endChar);
        return;
      }
      var iElement := SearchBack(startChar, iEnd);
      if iElement == iEnd {
        DropLine(c, iEnd, startChar, endChar);
        PopMany(iEnd + 1);
        removed := RemoveFrontUnfinishedFrames(startChar, endChar);
        removed := iEnd + 1 + removed;
        return;
      }
      KeepLine(c, iEnd, startChar, endChar);
      PopMany(iElement);
      return iElement;
    }

    /** Without an end marker: drops what precedes the last start marker, or everything. */
    method KeepLastStart(startChar: byte) returns (removed: nat)
      requires Valid()
      modifies this
      ensures Valid() && removed == FindLast(old(Contents()), startChar)
      ensures Contents() == old(Contents())[FindLast(old(Contents()), startChar)..]
    {
      hide *;
      var iLastStart := FindLastElement(startChar);
      if iLastStart >= size {
        var bufSize := size;
        Clear();
        return bufSize;
      }
      PopMany(iLastStart);
      return iLastStart;
    }

    /** The search backwards from the end marker at iEnd; iEnd if no start marker precedes it. */
    method SearchBack(startChar: byte, iEnd: nat) returns (found: nat)
      requires Valid() && 0 < iEnd < size
      ensures found == FindLast(Contents()[..iEnd], startChar)
    {
      hide *;
      ghost var line := Contents()[..iEnd];
      var iElement := iEnd - 1;
      while true
        invariant 0 <= iElement < iEnd && startChar !in line[iElement + 1..]
        decreases iElement
      {
        var element := GetElement(iElement);
        if element.value == startChar {
          FindLastUnique(line, startChar, iElement);
          return iElement;
        }
        assert line[iElement..] == [line[iElement]] + line[iElement + 1..];
        if iElement == 0 {
          assert line[0..] == line;
          FindLastAbsent(line, startChar);
          return iEnd;
        }
        iElement := iElement - 1;
      }
      return iEnd;
    }

    /** a - b in size_t arithmetic. */
    static function SizeMinus(a: nat, b: nat): nat
      requires a < Pow2(SIZE_BITS) && b < Pow2(SIZE_BITS)
    {
      if b <= a then a - b else Pow2(SIZE_BITS) + a - b
    }

    /** Do the two blocks lie in the ring and spell out the elements first..first + nElem? */
    ghost predicate BlocksSpell(blocks: Blocks, first: nat, nElem: nat)
      requires Valid() && first + nElem <= size
      reads this, buffer
    {
      && blocks.offset0 + blocks.size0 <= base + capacity
      && blocks.offset1 + blocks.size1 <= base + capacity
      && buffer[blocks.offset0..blocks.offset0 + blocks.size0] + buffer[blocks.offset1..blocks.offset1 + blocks.size1]
         == Contents()[first..first + nElem]
    }

    /** The blocks are the right ones exactly when the first element asked for lies at most one past the array's end. */
    method GetBlocks(first: nat, nElem: nat) returns (r: Result<Blocks>)
      requires Valid() && capacity < Pow2(SIZE_BITS)
      ensures first + nElem > size ==> r == Throw(CbOob)
      ensures first + nElem <= size ==>
        && r.Ok?
        && (BlocksSpell(r.value, first, nElem) <==> iStart + first <= capacity)
        && r.value.count == (if iStart + first + nElem > capacity then 2 else 1)
        && (r.value.count == 1 ==> r.value.size1 == 0)
    {
      hide Unroll, IsPow2, Pow2;
      if first + nElem > size {
        return Throw(CbOob);
      }
      var wraps := iStart + first + nElem > capacity;
      var blocks;
      if wraps {
        var size0 := SizeMinus(SizeMinus(capacity, iStart), first);
        blocks := Blocks(2, base + iStart + first, size0, base, SizeMinus(nElem, size0));
        WrappedBlocks(blocks, first, nElem);
      } else {
        blocks := Blocks(1, base + iStart + first, nElem, base, 0);
        StraightSlice(first, first + nElem);
        assert buffer[base..base] == [];
      }
      return Ok(blocks);
    }

    lemma WrappedBlocks(blocks: Blocks, first: nat, nElem: nat)
      requires Valid() && capacity < Pow2(SIZE_BITS) && first + nElem <= size && iStart + first + nElem > capacity
      requires blocks.offset0 == base + iStart + first && blocks.offset1 == base
      requires blocks.size0 == SizeMinus(SizeMinus(capacity, iStart), first)
      requires blocks.size1 == SizeMinus(nElem, blocks.size0)
      ensures BlocksSpell(blocks, first, nElem) <==> iStart + first <= capacity
    {
      hide Unroll, IsPow2, Pow2;
      if iStart + first <= capacity {
        AcrossSlice(first, first + nElem);
      } else {
        assert blocks.offset0 + blocks.size0 > base + capacity;
      }
    }
  }
}
