/**
 * Clients of the ring buffer that replay the library's own checks and
 * round trips through the contracts of `RingData` alone.
 */
module Scenarios {
  import opened Bits
  import Rounding
  import opened RingBuffer

  /**
   * A ring for a request between two powers of two, whose capacity is the
   * lower one.
   */
  method NewRing(storage: array?<byte>, requested: nat, k: nat) returns (ring: RingData)
    requires 0 < requested < WORD && Pow2(k) <= requested < 2 * Pow2(k)
    requires storage != null ==> requested <= storage.Length
    ensures fresh(ring) && ring.Valid() && ring.size == Pow2(k)
    ensures ring.head == 0 && ring.tail == 0
    ensures storage != null ==> ring.buf == storage
    ensures storage == null ==> fresh(ring.buf)
  {
    Rounding.RoundDownIs(requested, k);
    ring := RingData.InitBuffer(storage, requested);
  }

  /** Requests of 19 and 35 bytes give capacities 16 and 32. */
  method SizeChecks() returns (size1: nat, size2: nat)
    ensures size1 == 16 && size2 == 32
  {
    var ring1 := NewRing(null, 19, 4);
    size1 := ring1.GetBufferSize();
    var ring2 := NewRing(null, 35, 5);
    size2 := ring2.GetBufferSize();
  }

  /** A fresh ring of 17 requested bytes: 15 free, 14 of them linear, nothing stored. */
  method FreshSpaces() returns (free: nat, freeLinear: nat, full: nat, fullLinear: nat)
    ensures free == 15 && freeLinear == 14 && full == 0 && fullLinear == 0
  {
    var ring := NewRing(null, 17, 4);
    free := ring.GetFreeSpace();
    freeLinear := ring.GetFreeLinearSpace();
    full := ring.GetFullSpace();
    fullLinear := ring.GetFullLinearSpace();
  }

  /** Bytes offered to a fresh ring are taken up to its usable capacity. */
  method FillFresh(requested: nat, k: nat, data: seq<byte>) returns (len: nat)
    requires 0 < requested < WORD && Pow2(k) <= requested < 2 * Pow2(k)
    ensures len == Min(Pow2(k) - 1, |data|)
  {
    var ring := NewRing(null, requested, k);
    len := ring.AddBuffer(data);
  }

  /** Sixteen bytes offered to rings of 16 and 9 requested bytes: 15 and 7 are taken. */
  method FillAll(data: seq<byte>) returns (len1: nat, len2: nat)
    requires |data| == 16
    ensures len1 == 15 && len2 == 7
  {
    len1 := FillFresh(16, 4, data);
    len2 := FillFresh(9, 3, data);
  }

  /** The four space queries on one ring. */
  method Spaces(ring: RingData) returns (free: nat, freeLinear: nat, full: nat, fullLinear: nat)
    requires ring.Valid()
    ensures free + full == ring.size - 1
    ensures free == ring.GetFreeSpace() && freeLinear == ring.GetFreeLinearSpace()
    ensures full == ring.GetFullSpace() && fullLinear == ring.GetFullLinearSpace()
  {
    free := ring.GetFreeSpace();
    freeLinear := ring.GetFreeLinearSpace();
    full := ring.GetFullSpace();
    fullLinear := ring.GetFullLinearSpace();
  }

  /** A ring of capacity 4 whose cursors were moved `toTail` and then `toHead` slots from 0. */
  method Moved(toTail: nat, toHead: nat) returns (ring: RingData)
    requires toTail < 4 && toHead < 4
    ensures fresh(ring) && ring.Valid() && ring.size == 4
    ensures ring.tail == toTail && ring.head == toHead
  {
    ring := NewRing(null, 5, 2);
    assert ring.size == 4;
    Space.ModWrap(toTail, 4);
    Space.ModWrap(toHead, 4);
    ring.IncreaseTail(toTail);
    assert ring.tail == toTail && ring.head == 0;
    ring.IncreaseHead(toHead);
    assert ring.head == toHead;
  }

  /**
   * Capacity 4, both cursors moved to slot 2 and then the head once more:
   * two free bytes, one of them before the end of storage, one stored.
   */
  method SpaceAfterSkip() returns (free: nat, freeLinear: nat, full: nat, fullLinear: nat)
    ensures free == 2 && freeLinear == 1 && full == 1 && fullLinear == 1
  {
    var ring := Moved(2, 2);
    ring.IncreaseHead(1);
    assert ring.head == 3;
    free, freeLinear, full, fullLinear := Spaces(ring);
  }

  /**
   * Capacity 4, both cursors moved to slot 3 and the head once more, round
   * the end: two free bytes, both linear, one stored before the end.
   */
  method SpaceAcrossEnd() returns (free: nat, freeLinear: nat, full: nat, fullLinear: nat)
    ensures free == 2 && freeLinear == 2 && full == 1 && fullLinear == 1
  {
    var ring := Moved(3, 3);
    ring.IncreaseHead(1);
    assert ring.head == 0;
    free, freeLinear, full, fullLinear := Spaces(ring);
  }

  /**
   * Capacity 4 with the tail moved to slot 2 and then one head step: the
   * buffer is full, three bytes stored, two of them before the end.
   */
  method SpaceWhenFull() returns (free: nat, freeLinear: nat, full: nat, fullLinear: nat)
    ensures free == 0 && freeLinear == 0 && full == 3 && fullLinear == 2
  {
    var ring := Moved(2, 1);
    free, freeLinear, full, fullLinear := Spaces(ring);
  }

  /**
   * Copy round trip on an empty ring of capacity 8: what is added is what a
   * look ahead shows and what is then taken out, and the ring is empty again.
   */
  method CopyRoundTrip(data: seq<byte>, dest: array<byte>, peek: array<byte>)
    returns (added: nat, picked: nat, got: nat)
    requires dest != peek && dest.Length == |data| && peek.Length == |data|
    modifies dest, peek
    ensures added == Min(7, |data|) && picked == added && got == added
    ensures peek[..added] == data[..added] && dest[..added] == data[..added]
  {
    var ring := NewRing(null, 9, 3);
    added := ring.AddBuffer(data);
    picked := ring.PickBytes(peek, added);
    got := ring.GetBuffer(dest, added);
    assert ring.GetFullSpace() == 0;
  }

  /**
   * Copy round trip on an empty ring with its cursors anywhere: the bytes
   * added wrap round the end of storage when they must, and taking them out
   * again yields them in order.
   */
  method WrapRoundTrip(ring: RingData, data: seq<byte>, dest: array<byte>) returns (added: nat, got: nat)
    requires ring.Valid() && ring.GetFullSpace() == 0
    requires dest != ring.buf && dest.Length == |data|
    modifies ring`head, ring`tail, ring.buf, dest
    ensures ring.Valid() && ring.GetFullSpace() == 0
    ensures added == Min(ring.size - 1, |data|) && got == added
    ensures dest[..got] == data[..added]
  {
    added := ring.AddBuffer(data);
    got := ring.GetBuffer(dest, added);
  }

  /** The caller's `memcpy` of `n` bytes into storage from slot `from`. */
  method FillAt(storage: array<byte>, from: nat, data: seq<byte>, n: nat)
    requires from + n <= storage.Length && n <= |data|
    modifies storage
    ensures storage[from..from + n] == data[..n]
    ensures forall j :: 0 <= j < storage.Length && !(from <= j < from + n) ==> storage[j] == old(storage[j])
  {
    var i := 0;
    while i < n
      invariant 0 <= i <= n
      invariant forall k :: 0 <= k < i ==> storage[from + k] == data[k]
      invariant forall j :: 0 <= j < storage.Length && !(from <= j < from + i) ==> storage[j] == old(storage[j])
    {
      storage[from + i] := data[i];
      i := i + 1;
    }
    assert forall k :: 0 <= k < n ==> storage[from..from + n][k] == data[..n][k];
  }

  /**
   * A direct write from any state, filled in place by the caller: when the
   * grant is within the free space, the stored bytes grow by exactly the
   * bytes put in the window.
   */
  method DirectWrite(ring: RingData, data: seq<byte>) returns (granted: nat)
    requires ring.Valid()
    modifies ring`head, ring.buf
    ensures ring.Valid()
    ensures granted == Min(old(ring.GetFreeLinearSpace()), |data|)
    ensures granted <= old(ring.GetFreeSpace()) ==> ring.Contents() == old(ring.Contents()) + data[..granted]
  {
    var free := ring.GetFreeSpace();
    var start;
    granted, start := ring.AddBufferDirectly(|data|);
    if granted <= free {
      ghost var s := ring.buf[..];
      FillAt(ring.buf, start, data, granted);
      Space.DirectFill(s, ring.buf[..], ring.size, start, ring.tail, granted);
    }
  }

  /**
   * The corrected direct write from any state, filled in place: the stored
   * bytes always grow by exactly the bytes put in the window.
   */
  method DirectWriteIntended(ring: RingData, data: seq<byte>) returns (granted: nat)
    requires ring.Valid()
    modifies ring`head, ring.buf
    ensures ring.Valid()
    ensures granted == Min(Space.FreeLinearIntended(ring.size, old(ring.head), ring.tail), |data|)
    ensures ring.Contents() == old(ring.Contents()) + data[..granted]
  {
    var start;
    granted, start := ring.AddBufferDirectlyIntended(|data|);
    ghost var s := ring.buf[..];
    FillAt(ring.buf, start, data, granted);
    Space.DirectFill(s, ring.buf[..], ring.size, start, ring.tail, granted);
  }

  /**
   * Direct round trip on an empty ring with both cursors at slot 0: the
   * direct write is granted `size - 2` slots at most, the caller fills them,
   * and the direct read hands the same bytes back in place.
   */
  method DirectRoundTrip(ring: RingData, data: seq<byte>) returns (granted: nat, read: nat, out: seq<byte>)
    requires ring.Valid() && ring.size >= 2 && ring.head == 0 && ring.tail == 0
    modifies ring`head, ring`tail, ring.buf
    ensures granted == Min(ring.size - 2, |data|) && read == granted
    ensures out == data[..granted]
  {
    var start;
    granted, start := ring.AddBufferDirectly(|data|);
    assert start == 0 && granted <= ring.size - 2 && ring.head == granted;
    FillAt(ring.buf, 0, data, granted);
    Space.WindowLinear(ring.buf[..], 0, ring.size, granted);
    assert ring.Contents() == data[..granted];
    var from;
    read, from := ring.GetBufferDirectly(granted);
    out := ring.buf[from..from + read];
  }

  /** The direct round trip on caller storage of 9 bytes: up to 6 bytes go through. */
  method DirectOnStorage(storage: array<byte>, data: seq<byte>) returns (granted: nat, out: seq<byte>)
    requires storage.Length == 9
    modifies storage
    ensures granted == Min(6, |data|) && out == data[..granted]
  {
    var ring := NewRing(storage, 9, 3);
    var read;
    granted, read, out := DirectRoundTrip(ring, data);
  }

  /**
   * The linear free query at capacity 1: the empty-state answer `size - 2`
   * wraps to the largest `size_t`, although nothing can be stored.
   */
  method CapacityOneGrant() returns (free: nat, freeLinear: nat)
    ensures free == 0 && freeLinear == WORD - 1
  {
    var ring := NewRing(null, 1, 0);
    free := ring.GetFreeSpace();
    freeLinear := ring.GetFreeLinearSpace();
  }

  /**
   * A full ring of capacity 4 with the tail at slot 0 still grants one
   * direct byte; taking it moves the head onto the tail and the three
   * stored bytes read as gone.
   */
  method FullRingLosesData() returns (before: nat, granted: nat, after: nat)
    ensures before == 3 && granted == 1 && after == 0
  {
    var ring := Moved(0, 3);
    before := ring.GetFullSpace();
    var start;
    granted, start := ring.AddBufferDirectly(1);
    after := ring.GetFullSpace();
  }

  /** The same full ring with the intended grant: nothing is granted and nothing is lost. */
  method FullRingKeepsData() returns (before: nat, granted: nat, after: nat)
    ensures before == 3 && granted == 0 && after == 3
  {
    var ring := Moved(0, 3);
    before := ring.GetFullSpace();
    var start;
    granted, start := ring.AddBufferDirectlyIntended(1);
    after := ring.GetFullSpace();
  }
}
