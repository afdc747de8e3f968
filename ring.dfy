/**
 * RING_DATA and the operations on it, in the configuration with
 * POWER_2_OPTIMIZATION defined: the capacity is rounded down to a power of
 * two and every cursor advance masks with `size - 1`.
 */
module RingBuffer {
  import opened Bits
  import Rounding
  import opened Space

  /** `uint8_t` */
  newtype byte = x: int | 0 <= x < 256

  class RingData {
    var buf: array<byte>
    var head: nat
    var tail: nat
    var size: nat
    var dynamic: bool
    /** `size == 2^log`: what the rounding at construction guarantees. */
    ghost var log: nat

    ghost predicate Valid()
      reads this
    {
      Cursors(size, head, tail) && size <= buf.Length && log < 32 && size == Pow2(log) && size < WORD
    }

    /** The stored bytes, oldest first: the window of storage from the read cursor. */
    ghost function Contents(): seq<byte>
      reads this, buf
      requires Valid()
    {
      Window(buf[..], tail, size, Full(size, head, tail))
    }

    constructor Make(storage: array<byte>, capacity: nat, owned: bool, ghost k: nat)
      requires capacity <= storage.Length && 1 <= capacity && k < 32 && capacity == Pow2(k) && capacity < WORD
      ensures Valid() && buf == storage && size == capacity && dynamic == owned
      ensures head == 0 && tail == 0
    {
      buf := storage;
      head := 0;
      tail := 0;
      size := capacity;
      dynamic := owned;
      log := k;
    }

    /**
     * RING_InitBuffer: a zero size fails; otherwise the capacity is the size
     * rounded down to a power of two, both cursors start at slot 0, and the
     * storage is the caller's or a fresh array of the rounded capacity.
     */
    static method InitBuffer(storage: array?<byte>, requested: nat) returns (ring: RingData?)
      requires requested < WORD
      requires storage != null ==> requested <= storage.Length
      ensures ring == null <==> requested == 0
      ensures ring != null ==> fresh(ring) && ring.Valid()
      ensures ring != null ==> ring.size == Rounding.RoundDown(requested)
      ensures ring != null ==> ring.size <= requested < 2 * ring.size
      ensures ring != null ==> ring.head == 0 && ring.tail == 0
      ensures ring != null && storage != null ==> ring.buf == storage && !ring.dynamic
      ensures ring != null && storage == null ==>
        fresh(ring.buf) && ring.buf.Length == ring.size && ring.dynamic
      ensures ring != null ==> ring.GetFullSpace() == 0 && ring.GetFullLinearSpace() == 0
      ensures ring != null ==> ring.Contents() == []
    {
      if requested == 0 {
        return null;
      }
      var capacity := Rounding.RoundDown(requested);
      Rounding.RoundDownLargestPow2(requested);
      if storage == null {
        var owned := new byte[capacity];
        ring := new RingData.Make(owned, capacity, true, Log2(requested));
      } else {
        ring := new RingData.Make(storage, capacity, false, Log2(requested));
      }
    }

    /** RING_GetBufferSize: a power of two, one more than the usable slots. */
    function GetBufferSize(): (r: nat)
      reads this
      requires Valid()
      ensures r == Pow2(log) && r == GetFreeSpace() + GetFullSpace() + 1
    {
      size
    }

    /** RING_GetFreeSpace: never more than the capacity less the one slot kept free. */
    function GetFreeSpace(): (r: nat)
      reads this
      requires Valid()
      ensures r <= size - 1 && (r == size - 1 <==> head == tail)
    {
      Free(size, head, tail)
    }

    /** The linear free space as the `size_t` the source returns. */
    function GetFreeLinearSpace(): (r: nat)
      reads this
      requires Valid()
      ensures r < WORD
      ensures size >= 2 ==> head + r <= size
      ensures size == 1 ==> r == WORD - 1
    {
      SizeT(FreeLinear(size, head, tail))
    }

    /** RING_GetFullSpace: zero exactly when the cursors meet. */
    function GetFullSpace(): (r: nat)
      reads this
      requires Valid()
      ensures r <= size - 1 && (r == 0 <==> head == tail)
    {
      Full(size, head, tail)
    }

    /** RING_GetFullLinearSpace: a stored run that does not cross the end of storage. */
    function GetFullLinearSpace(): (r: nat)
      reads this
      requires Valid()
      ensures tail + r <= size && r <= GetFullSpace()
      ensures r == GetFullSpace() <==> head >= tail || head == 0
    {
      FullLinear(size, head, tail)
    }

    /** The cursor advance `v & (size - 1)`: the remainder modulo the capacity. */
    function Wrap(v: nat): (r: nat)
      reads this
      requires Valid()
      ensures r == v % size && r < size
      ensures v < 2 * size ==> r == if v < size then v else v - size
    {
      AndOnesIsMod(v, log);
      if v < 2 * size then ModWrap(v, size); And(v, size - 1) else And(v, size - 1)
    }

    /**
     * RING_IncreaseHead: commits `count` bytes written through the head
     * window.  Within the free space the bytes already in those slots become
     * stored bytes.
     */
    method IncreaseHead(count: nat)
      requires Valid()
      modifies this`head
      ensures Valid()
      ensures head == (old(head) + count) % size
      ensures count <= old(GetFreeSpace()) ==>
        GetFullSpace() == old(GetFullSpace()) + count &&
        Contents() == old(Contents()) + Window(buf[..], old(head), size, count)
    {
      var h0 := head;
      head := Wrap(head + count);
      if count <= Free(size, h0, tail) {
        GrowWindow(buf[..], size, h0, tail, count);
      }
    }

    /** RING_IncreaseTail: releases `count` bytes read through the tail window. */
    method IncreaseTail(count: nat)
      requires Valid()
      modifies this`tail
      ensures Valid()
      ensures tail == (old(tail) + count) % size
      ensures count <= old(GetFullSpace()) ==>
        GetFullSpace() == old(GetFullSpace()) - count &&
        Contents() == old(Contents())[count..]
    {
      var t0 := tail;
      tail := Wrap(tail + count);
      if count <= Full(size, head, t0) {
        ShrinkWindow(buf[..], size, head, t0, count);
      }
    }

    /** RING_AddByte: stores `val` at the head and advances it, unless the buffer is full. */
    method AddByte(val: byte) returns (ok: bool)
      requires Valid()
      modifies this`head, buf
      ensures Valid()
      ensures ok <==> old(GetFreeSpace()) > 0
      ensures ok ==> buf[..] == old(buf[..])[old(head) := val] && head == (old(head) + 1) % size
      ensures !ok ==> buf[..] == old(buf[..]) && head == old(head)
      ensures Contents() == if ok then old(Contents()) + [val] else old(Contents())
    {
      if Free(size, head, tail) > 0 {
        PushWindow(buf[..], size, head, tail, val);
        buf[head] := val;
        head := Wrap(head + 1);
        return true;
      }
      return false;
    }

    /**
     * RING_AddBuffer: copies as much of `src` as fits, byte by byte from the
     * head round the ring, and reports how much that was.
     */
    method AddBuffer(src: seq<byte>) returns (written: nat)
      requires Valid()
      modifies this`head, buf
      ensures Valid()
      ensures written == Min(old(GetFreeSpace()), |src|)
      ensures head == (old(head) + written) % size
      ensures Window(buf[..], old(head), size, written) == src[..written]
      ensures buf[..] == Written(old(buf[..]), size, old(head), written, src)
      ensures Contents() == old(Contents()) + src[..written]
    {
      var writable := Min(Free(size, head, tail), |src|);
      var h0 := head;
      ghost var s := buf[..];
      var i := 0;
      WrittenNone(s, size, h0, src);
      while i < writable
        invariant 0 <= i <= writable
        invariant Valid()
        invariant head == Slot(size, h0, i)
        invariant buf[..] == Written(s, size, h0, i, src)
      {
        WrittenStep(s, size, h0, i, src);
        buf[head] := src[i];
        head := Wrap(head + 1);
        i := i + 1;
      }
      written := i;
      WriteRun(s, buf[..], size, h0, tail, i, src);
    }

    /**
     * RING_AddBufferDirectly: reserves a window for the caller to fill in
     * place; returns its start and length, the length capped by the linear
     * free space, and moves the head past it at once.
     */
    method AddBufferDirectly(n: nat) returns (toWrite: nat, start: nat)
      requires Valid()
      modifies this`head
      ensures Valid()
      ensures toWrite == Min(old(GetFreeLinearSpace()), n) && start == old(head)
      ensures size >= 2 ==> start + toWrite <= size
      ensures size == 1 ==> toWrite == Min(WORD - 1, n)
      ensures head == (old(head) + toWrite) % size
      ensures toWrite <= old(GetFreeSpace()) ==>
        GetFullSpace() == old(GetFullSpace()) + toWrite &&
        Contents() == old(Contents()) + buf[start..start + toWrite]
    {
      var linear := GetFreeLinearSpace();
      start := head;
      toWrite := Min(linear, n);
      var h := Wrap(start + toWrite);
      DirectGrant(buf[..], size, start, tail, n, toWrite, h);
      head := h;
    }

    /**
     * The direct write as evidently intended: the grant is capped by the
     * longest free run inside storage, so it never exceeds the free space and
     * the stored bytes always grow by exactly the granted window.
     */
    method AddBufferDirectlyIntended(n: nat) returns (toWrite: nat, start: nat)
      requires Valid()
      modifies this`head
      ensures Valid()
      ensures toWrite == Min(FreeLinearIntended(size, old(head), tail), n) && start == old(head)
      ensures start + toWrite <= size && toWrite <= old(GetFreeSpace())
      ensures head == (old(head) + toWrite) % size
      ensures GetFullSpace() == old(GetFullSpace()) + toWrite
      ensures Contents() == old(Contents()) + buf[start..start + toWrite]
    {
      start := head;
      toWrite := Min(FreeLinearIntended(size, start, tail), n);
      var h := Wrap(start + toWrite);
      DirectFill(buf[..], buf[..], size, start, tail, toWrite);
      head := h;
    }

    /** RING_GetByte: takes the oldest byte, unless the buffer is empty. */
    method GetByte() returns (ok: bool, b: byte)
      requires Valid()
      modifies this`tail
      ensures Valid()
      ensures ok <==> old(GetFullSpace()) > 0
      ensures ok ==> b == old(Contents())[0] && b == buf[old(tail)]
      ensures ok ==> tail == (old(tail) + 1) % size && Contents() == old(Contents())[1..]
      ensures !ok ==> tail == old(tail)
    {
      if Full(size, head, tail) > 0 {
        PopWindow(buf[..], size, head, tail);
        b := buf[tail];
        tail := Wrap(tail + 1);
        return true, b;
      }
      return false, 0;
    }

    /**
     * RING_GetByteSimple: reads the byte at the tail and advances it without
     * looking at the stored count, which the caller is to check.  On a
     * non-empty ring that is the oldest byte; on an empty one the tail passes
     * the head and the ring then reports `size - 1` stored bytes.
     */
    method GetByteSimple() returns (b: byte)
      requires Valid()
      modifies this`tail
      ensures Valid()
      ensures b == buf[old(tail)] && tail == (old(tail) + 1) % size
      ensures old(GetFullSpace()) > 0 ==> b == old(Contents())[0] && Contents() == old(Contents())[1..]
      ensures old(GetFullSpace()) == 0 ==> GetFullSpace() == size - 1
    {
      if Full(size, head, tail) > 0 {
        PopWindow(buf[..], size, head, tail);
      } else {
        ModWrap(tail + 1, size);
      }
      b := buf[tail];
      tail := Wrap(tail + 1);
    }

    /**
     * RING_GetBuffer: moves up to `len` of the oldest bytes into `dest`,
     * byte by byte, and reports how many.
     */
    method GetBuffer(dest: array<byte>, len: nat) returns (got: nat)
      requires Valid() && dest != buf && len <= dest.Length
      modifies this`tail, dest
      ensures Valid() && buf[..] == old(buf[..])
      ensures got == Min(old(GetFullSpace()), len)
      ensures tail == (old(tail) + got) % size
      ensures dest[..got] == old(Contents())[..got]
      ensures dest[got..] == old(dest[got..])
      ensures Contents() == old(Contents())[got..]
    {
      var readable := Min(Full(size, head, tail), len);
      ghost var w, s, d := Contents(), buf[..], dest[..];
      var t0 := tail;
      var i := 0;
      while i < readable
        invariant 0 <= i <= readable
        invariant Valid()
        invariant tail == Slot(size, t0, i)
        invariant dest[..] == w[..i] + d[i..]
      {
        WindowAt(s, t0, size, Full(size, head, t0), i);
        CopyStep(d, w, i);
        dest[i] := buf[tail];
        tail := Wrap(tail + 1);
        i := i + 1;
      }
      SlotIsMod(size, t0, i);
      ShrinkWindow(s, size, head, t0, i);
      assert buf[..] == s;
      got := i;
    }

    /**
     * RING_GetBufferDirectly: hands out the oldest stored bytes in place,
     * up to the end of storage, and moves the tail past them at once.
     */
    method GetBufferDirectly(n: nat) returns (toRead: nat, start: nat)
      requires Valid()
      modifies this`tail
      ensures Valid()
      ensures toRead == Min(old(GetFullLinearSpace()), n) && start == old(tail)
      ensures start + toRead <= size
      ensures tail == (old(tail) + toRead) % size
      ensures buf[start..start + toRead] == old(Contents())[..toRead]
      ensures Contents() == old(Contents())[toRead..]
    {
      ghost var s, f := buf[..], Full(size, head, tail);
      start := tail;
      toRead := Min(FullLinear(size, head, start), n);
      FullLinearIsStoredRun(size, head, start);
      WindowSplit(s, start, size, toRead, f - toRead);
      WindowLinear(s, start, size, toRead);
      ShrinkWindow(s, size, head, start, toRead);
      tail := Wrap(start + toRead);
      assert buf[..] == s;
    }

    /**
     * RING_PickBytes: copies up to `len` of the oldest bytes into `dest`
     * through a local copy of the tail; the buffer itself does not change.
     */
    method PickBytes(dest: array<byte>, len: nat) returns (picked: nat)
      requires Valid() && dest != buf && len <= dest.Length
      modifies dest
      ensures picked == Min(GetFullSpace(), len)
      ensures dest[..picked] == Contents()[..picked]
      ensures dest[picked..] == old(dest[picked..])
    {
      var readable := Min(Full(size, head, tail), len);
      ghost var w, d := Contents(), dest[..];
      var t := tail;
      var i := 0;
      while i < readable
        invariant 0 <= i <= readable
        invariant t == Slot(size, tail, i)
        invariant dest[..] == w[..i] + d[i..]
      {
        WindowAt(buf[..], tail, size, Full(size, head, tail), i);
        CopyStep(d, w, i);
        dest[i] := buf[t];
        t := Wrap(t + 1);
        i := i + 1;
      }
      picked := i;
    }
  }

  /**
   * The cursor advance in `size_t`: the sum `cursor + count` may wrap modulo
   * 2^32 before the mask, and the masked slot is the same, because the
   * capacity divides 2^32.
   */
  lemma AdvanceIgnoresOverflow(v: nat, k: nat)
    requires k <= 32
    ensures And(v % WORD, Pow2(k) - 1) == v % Pow2(k)
  {
    MaskIgnoresWordWrap(v, k);
    AndOnesIsMod(v, k);
  }
}
