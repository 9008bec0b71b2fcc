/** `VfsDataNode`: a file's bytes in a growing buffer. */
module DataNode {
  import opened Extremes
  import opened Xcore
  import opened Numerals

  const INITIAL_LENGTH := 16

  /** The greatest end of a write for which doubling the capacity does not wrap a 32-bit `size_t`. */
  const MAX_END: nat := 0x8000_0000
  const SIZE_RANGE: nat := 0x1_0000_0000

  datatype Access = Access(read: bool, write: bool)

  // ---------------------------------------------------------------------------------------------
  // Capacity

  /** The capacity doubled until it holds n bytes. */
  function Doubled(c: nat, n: nat): nat
    requires c > 0
    decreases Max(n, c) - c
  {
    if c >= n then c else Doubled(2 * c, n)
  }

  function Grown(capacity: nat, n: nat): nat {
    Doubled(if capacity == 0 then INITIAL_LENGTH else capacity, n)
  }

  /** A capacity the buffer can have: none, or the initial length doubled some number of times. */
  ghost predicate IsCapacity(c: nat) {
    c == 0 || exists k: nat :: c == INITIAL_LENGTH * Pow(2, k)
  }

  lemma {:induction false} DoubledBounds(c: nat, k: nat, n: nat)
    requires c == INITIAL_LENGTH * Pow(2, k)
    ensures c > 0 && IsCapacity(Doubled(c, n))
    ensures n <= Doubled(c, n)
    ensures c < n ==> 2 * c <= Doubled(c, n) < 2 * n
    ensures c >= n ==> Doubled(c, n) == c
    decreases Max(n, c) - c
  {
    PowTwoPositive(k);
    if c < n {
      PowTwoPositive(k + 1);
      DoubledBounds(2 * c, k + 1, n);
    }
  }

  lemma GrownBounds(capacity: nat, n: nat)
    requires IsCapacity(capacity)
    ensures IsCapacity(Grown(capacity, n)) && Grown(capacity, n) > 0
    ensures Max(capacity, n) <= Grown(capacity, n)
    ensures Grown(capacity, n) <= Max(Max(INITIAL_LENGTH, capacity), 2 * n)
    ensures capacity < n ==> 2 * capacity <= Grown(capacity, n) <= Max(INITIAL_LENGTH, 2 * n)
  {
    assert Pow(2, 0) == 1;
    if capacity == 0 {
      DoubledBounds(INITIAL_LENGTH, 0, n);
    } else {
      var k: nat :| capacity == INITIAL_LENGTH * Pow(2, k);
      DoubledBounds(capacity, k, n);
    }
  }

  lemma PowTwo27()
    ensures Pow(2, 27) == 0x800_0000 && Pow(2, 28) == 0x1000_0000
  {
    assert Pow(2, 9) == 512;
    assert Pow(2, 18) == 512 * 512;
    assert Pow(2, 27) == 512 * 512 * 512;
  }

  /** Doubling never passes a power of two that is large enough, so it does not wrap below `MAX_END`. */
  lemma {:induction false} DoubledStaysBelow(c: nat, k: nat, n: nat)
    requires c == INITIAL_LENGTH * Pow(2, k) && k <= 27 && n <= MAX_END
    ensures c > 0 && Doubled(c, n) <= MAX_END
    decreases 27 - k
  {
    PowTwoPositive(k);
    PowTwoMonotonic(k, 27);
    PowTwo27();
    if c < n {
      PowTwoPositive(k + 1);
      assert k < 27;
      DoubledStaysBelow(2 * c, k + 1, n);
    }
  }

  lemma GrownStaysBelow(capacity: nat, n: nat)
    requires IsCapacity(capacity) && capacity <= MAX_END && n <= MAX_END
    ensures Grown(capacity, n) <= MAX_END
  {
    assert Pow(2, 0) == 1;
    if capacity == 0 {
      DoubledStaysBelow(INITIAL_LENGTH, 0, n);
    } else {
      var k: nat :| capacity == INITIAL_LENGTH * Pow(2, k);
      if k > 27 {
        PowTwo27();
        PowTwoMonotonic(28, k);
      } else {
        DoubledStaysBelow(capacity, k, n);
      }
    }
  }

  /** The capacity after k turns of the doubling loop, in 32 bits. */
  function AfterTurns(c: nat, k: nat): nat {
    if k == 0 then c else 2 * AfterTurns(c, k - 1) % SIZE_RANGE
  }

  lemma {:induction false} AfterTurnsIs(j: nat, k: nat)
    requires j <= 27
    ensures AfterTurns(INITIAL_LENGTH * Pow(2, j), k) == if j + k <= 27 then INITIAL_LENGTH * Pow(2, j + k) else 0
    decreases k
  {
    PowTwo27();
    if k > 0 {
      AfterTurnsIs(j, k - 1);
      PowTwoPositive(j + k);
      if j + k <= 27 {
        PowTwoMonotonic(j + k, 27);
      }
    }
  }

  /** In 32 bits the doubling loop ends if and only if the length is at most 2^31: beyond it the capacity wraps to 0. */
  lemma GrowthEndsWhen(j: nat, n: nat)
    requires j <= 27
    ensures (exists k: nat :: AfterTurns(INITIAL_LENGTH * Pow(2, j), k) >= n) <==> n <= MAX_END
  {
    PowTwo27();
    AfterTurnsIs(j, 27 - j);
    forall k: nat
      ensures AfterTurns(INITIAL_LENGTH * Pow(2, j), k) <= MAX_END
    {
      AfterTurnsIs(j, k);
      if j + k <= 27 {
        PowTwoMonotonic(j + k, 27);
      }
    }
  }

  // ---------------------------------------------------------------------------------------------
  // Runs of writes, as far as sizes go

  /** The sizes of a node: its capacity and length, all bytes copied by reallocation so far, the greatest end. */
  datatype Sizes = Sizes(capacity: nat, length: nat, copied: nat, greatest: nat)

  const FRESH := Sizes(0, 0, 0, 0)

  /** A write that ends at the given position; `memory` tells whether an allocation would succeed. */
  function WriteSizes(s: Sizes, end: nat, memory: bool): Sizes {
    if end <= s.capacity then Sizes(s.capacity, Max(s.length, end), s.copied, Max(s.greatest, end))
    else if memory then
      Sizes(Grown(s.capacity, end), Max(s.length, end), s.copied + s.length, Max(s.greatest, end))
    else s
  }

  function WritesSizes(s: Sizes, writes: seq<(nat, bool)>): Sizes
    decreases |writes|
  {
    if writes == [] then s else WritesSizes(WriteSizes(s, writes[0].0, writes[0].1), writes[1..])
  }

  /** What every write keeps. */
  ghost predicate SizesInvariant(s: Sizes) {
    && IsCapacity(s.capacity)
    && s.length == s.greatest <= s.capacity <= Max(INITIAL_LENGTH, 2 * s.greatest)
    && s.copied <= s.capacity
  }

  lemma WriteKeepsInvariant(s: Sizes, end: nat, memory: bool)
    requires SizesInvariant(s)
    ensures SizesInvariant(WriteSizes(s, end, memory))
  {
    GrownBounds(s.capacity, end);
  }

  /**
   Over any run of writes, some of which fail to allocate: the length is the greatest end written, the capacity is at
   most twice that and a doubling of 16, and all bytes ever copied by reallocation fit the final capacity.
   */
  lemma {:induction false} RunOfWrites(s: Sizes, writes: seq<(nat, bool)>)
    requires SizesInvariant(s)
    ensures SizesInvariant(WritesSizes(s, writes))
    decreases |writes|
  {
    if writes != [] {
      WriteKeepsInvariant(s, writes[0].0, writes[0].1);
      RunOfWrites(WriteSizes(s, writes[0].0, writes[0].1), writes[1..]);
    }
  }

  // ---------------------------------------------------------------------------------------------
  // The node

  function ByteFor(position: nat, bytes: string, i: nat): char
    requires position <= i < position + |bytes|
  {
    bytes[i - position]
  }

  /** The bytes by their position in the node. */
  function Placed(position: nat, bytes: string): map<nat, char> {
    map i: nat | position <= i < position + |bytes| :: ByteFor(position, bytes, i)
  }

  /** Exactly the positions of the bytes, each with its byte. */
  lemma PlacedIs(position: nat, bytes: string, i: nat)
    ensures i in Placed(position, bytes) <==> position <= i < position + |bytes|
    ensures position <= i < position + |bytes| ==> Placed(position, bytes)[i] == bytes[i - position]
  {
  }

  class VfsDataNode {
    var access: Access
    var dataCapacity: nat
    var dataLength: nat
    var dataBuffer: array<char>
    /** The last byte written at each position; a gap skipped by a write is unspecified. */
    ghost var written: map<nat, char>
    ghost var sizes: Sizes

    ghost predicate Valid()
      reads this, dataBuffer
    {
      && dataBuffer.Length == dataCapacity <= MAX_END
      && dataLength <= dataCapacity
      && IsCapacity(dataCapacity)
      && (forall i <- written :: i < dataLength && dataBuffer[i] == written[i])
      && sizes.capacity == dataCapacity && sizes.length == dataLength
    }


    ghost function Contents(): (s: string)
      requires Valid()
      reads this, dataBuffer
    {
      dataBuffer[..dataLength]
    }

    constructor (access: Access)
      ensures Valid() && Contents() == "" && written == map[] && fresh(dataBuffer)
      ensures this.access == access && sizes == FRESH && dataCapacity == 0
    {
      this.access := access;
      dataCapacity, dataLength := 0, 0;
      dataBuffer := new char[0];
      written, sizes := map[], FRESH;
    }

    method Read(position: nat, length: nat) returns (res: Result, bytes: string)
      requires Valid()
      ensures !access.read ==> res == E_ACCESS
      ensures access.read && position > dataLength ==> res == E_VALUE
      ensures access.read && position <= dataLength ==>
                res == E_OK && bytes == Contents()[position..position + Min(dataLength - position, length)]
      ensures res == E_OK ==>
                forall i | 0 <= i < |bytes| && position + i in written :: bytes[i] == written[position + i]
    {
      bytes := "";
      if !access.read {
        return E_ACCESS, bytes;
      }
      if position > dataLength {
        return E_VALUE, bytes;
      }
      var remaining := dataLength - position;
      var chunk := Min(remaining, length);
      bytes := dataBuffer[position..position + chunk];
      res := E_OK;
    }

    /** Everything is as it was. */
    twostate predicate Same()
      requires old(Valid())
      reads this, dataBuffer
    {
      && unchanged(this) && Valid() && Contents() == old(Contents())
    }

    method ReallocateDataBuffer(length: nat, memory: bool) returns (done: bool)
      requires Valid() && length <= MAX_END
      modifies this`dataCapacity, this`dataBuffer, this`sizes
      ensures Valid() && done == memory
      ensures done ==> dataCapacity == Grown(old(dataCapacity), length) >= length && fresh(dataBuffer)
      ensures done ==> Contents() == old(Contents())
      ensures done ==> sizes == old(sizes).(capacity := dataCapacity, copied := old(sizes).copied + dataLength)
      ensures !done ==> Same()
    {
      assert IsCapacity(INITIAL_LENGTH) by {
        assert Pow(2, 0) == 1;
      }
      var capacity := dataCapacity;
      if capacity == 0 {
        capacity := INITIAL_LENGTH;
      }
      while capacity < length
        invariant capacity > 0 && Doubled(capacity, length) == Grown(dataCapacity, length)
        decreases length - capacity
      {
        capacity := capacity * 2;
      }
      GrownBounds(dataCapacity, length);
      GrownStaysBelow(dataCapacity, length);
      if memory {
        var reallocated := new char[capacity];
        forall i | 0 <= i < dataLength {
          reallocated[i] := dataBuffer[i];
        }
        assert reallocated[..dataLength] == Contents();
        forall i <- written ensures reallocated[i] == written[i] {
          assert dataBuffer[i] == written[i];
        }
        dataBuffer := reallocated;
        dataCapacity := capacity;
        sizes := sizes.(capacity := capacity, copied := sizes.copied + dataLength);
        return true;
      } else {
        return false;
      }
    }

    /** What a successful write leaves: the new bytes at their place, all other old bytes as they were. */
    twostate predicate Overlaid(position: nat, bytes: string)
      requires old(Valid()) && Valid()
      reads this, dataBuffer
    {
      var end := position + |bytes|;
      && dataLength == Max(old(dataLength), end)
      && dataBuffer[position..end] == bytes
      && (forall i | 0 <= i < old(dataLength) && !(position <= i < end) :: dataBuffer[i] == old(dataBuffer[i]))
      && written == old(written) + Placed(position, bytes)
    }

    method WriteDataBuffer(position: nat, bytes: string, memory: bool) returns (res: Result, count: nat)
      requires Valid() && position + |bytes| <= MAX_END
      modifies this`dataCapacity, this`dataLength, this`dataBuffer, this`written, this`sizes, dataBuffer
      ensures Valid() && (dataBuffer == old(dataBuffer) || fresh(dataBuffer))
      ensures sizes == WriteSizes(old(sizes), position + |bytes|, memory)
      ensures res == if position + |bytes| > old(dataCapacity) && !memory then E_MEMORY else E_OK
      ensures res == E_OK ==> count == |bytes| && Overlaid(position, bytes)
      ensures res != E_OK ==> Same()
    {
      var end := position + |bytes|;
      if end > dataCapacity {
        var done := ReallocateDataBuffer(end, memory);
        if !done {
          return E_MEMORY, 0;
        }
      }
      Place(position, bytes);
      res, count := E_OK, |bytes|;
    }

    /** Copies the bytes into a buffer that has room for them. */
    method Place(position: nat, bytes: string)
      requires Valid() && position + |bytes| <= dataCapacity
      modifies this`dataLength, this`written, this`sizes, dataBuffer
      ensures Valid() && Overlaid(position, bytes)
      ensures var end := position + |bytes|;
              sizes == old(sizes).(length := Max(old(sizes).length, end), greatest := Max(old(sizes).greatest, end))
    {
      var end := position + |bytes|;
      ghost var before := dataBuffer[..dataLength];
      forall i | 0 <= i < |bytes| {
        dataBuffer[position + i] := bytes[i];
      }
      assert dataBuffer[position..end] == bytes;
      assert forall i | 0 <= i < dataLength && !(position <= i < end) :: dataBuffer[i] == before[i];
      if end > dataLength {
        dataLength := end;
      }
      written := written + Placed(position, bytes);
      sizes := sizes.(length := dataLength, greatest := Max(sizes.greatest, end));
    }

    method Write(position: nat, bytes: string, memory: bool) returns (res: Result, count: nat)
      requires Valid() && position + |bytes| <= MAX_END
      modifies this`dataCapacity, this`dataLength, this`dataBuffer, this`written, this`sizes, dataBuffer
      ensures Valid() && (dataBuffer == old(dataBuffer) || fresh(dataBuffer))
      ensures res == if !access.write then E_ACCESS
                     else if position + |bytes| > old(dataCapacity) && !memory then E_MEMORY else E_OK
      ensures res == E_OK ==> count == |bytes| && Overlaid(position, bytes)
      ensures res != E_OK ==> Same()
      ensures access.write ==> sizes == WriteSizes(old(sizes), position + |bytes|, memory)
      ensures SizesInvariant(old(sizes)) ==> SizesInvariant(sizes)
    {
      if SizesInvariant(sizes) {
        WriteKeepsInvariant(sizes, position + |bytes|, memory);
      }
      if !access.write {
        return E_ACCESS, 0;
      }
      res, count := WriteDataBuffer(position, bytes, memory);
    }

    /** Gives the node new contents of the given length, in a new buffer unless the contents are empty. */
    method Reserve(bytes: string, memory: bool) returns (done: bool)
      requires Valid() && |bytes| <= MAX_END
      modifies this`dataCapacity, this`dataLength, this`dataBuffer, this`written, this`sizes, dataBuffer
      ensures Valid() && done == (bytes == "" || memory)
      ensures done ==> Contents() == bytes && fresh(dataBuffer)
                       && written == Placed(0, bytes)
      ensures done ==> dataCapacity == if bytes == "" then 0 else Grown(old(dataCapacity), |bytes|)
      ensures done ==> sizes == Sizes(dataCapacity, |bytes|, 0, |bytes|)
      ensures done && old(dataCapacity) == 0 ==> SizesInvariant(sizes)
      ensures !done ==> Same()
    {
      GrownBounds(dataCapacity, |bytes|);
      if |bytes| > 0 {
        done := ReallocateDataBuffer(|bytes|, memory);
        if !done {
          return;
        }
        forall i | 0 <= i < |bytes| {
          dataBuffer[i] := bytes[i];
        }
        dataLength := |bytes|;
      } else {
        dataCapacity, dataLength := 0, 0;
        dataBuffer := new char[0];
        done := true;
      }
      assert dataBuffer[..dataLength] == bytes;
      written := Placed(0, bytes);
      sizes := Sizes(dataCapacity, dataLength, 0, dataLength);
    }
  }
}
