/**
 * The space accounting of the ring buffer as closed formulas over the
 * capacity `c`, the write cursor `h` (head) and the read cursor `t` (tail),
 * and the stored bytes as the window of storage that starts at the read
 * cursor.  One slot is always left free, so `h == t` means empty.
 */
module Space {
  import opened Bits

  /** Capacity at least one and both cursors inside it. */
  predicate Cursors(c: nat, h: nat, t: nat)
  {
    1 <= c && h < c && t < c
  }

  // ---------------------------------------------------------------------
  // Modular arithmetic on cursors

  lemma ModWrap(a: nat, c: nat)
    requires 0 < c && a < 2 * c
    ensures a % c == if a < c then a else a - c
  {
    if a < c {
      DivModUnique(a, c, 0, a);
    } else {
      DivModUnique(a, c, 1, a - c);
    }
  }

  lemma ModAddMod(a: nat, b: nat, c: nat)
    requires 0 < c
    ensures ((a % c) + b) % c == (a + b) % c
  {
    var q, r := a / c, a % c;
    var q2, r2 := (r + b) / c, (r + b) % c;
    assert a == c * q + r;
    assert r + b == c * q2 + r2;
    assert a + b == c * (q + q2) + r2;
    DivModUnique(a + b, c, q + q2, r2);
  }

  /** Adding `k` after reducing is adding it before. */
  lemma ModShift(x: nat, y: nat, k: nat, c: nat)
    requires 0 < c
    ensures ((x + y) % c + k) % c == (x + (y + k)) % c
  {
    ModAddMod(x + y, k, c);
    assert x + y + k == x + (y + k);
  }

  /** Two offsets below `c` from one start reach the same slot only if they are equal. */
  lemma ModInjective(t: nat, i: nat, j: nat, c: nat)
    requires i < c && j < c && (t + i) % c == (t + j) % c
    ensures i == j
  {
    var q1, q2, r := (t + i) / c, (t + j) / c, (t + i) % c;
    assert t + i == c * q1 + r;
    assert t + j == c * q2 + r;
    if q1 > q2 {
      MulMono(c, q2 + 1, q1);
      assert false;
    } else if q1 < q2 {
      MulMono(c, q1 + 1, q2);
      assert false;
    }
  }

  /** The slot `k` steps after `from`, going round a ring of `c` slots, in linear form. */
  function Slot(c: nat, from: nat, k: nat): (r: nat)
    requires from < c && k < c
    ensures r < c
  {
    if from + k < c then from + k else from + k - c
  }

  /** The steps from slot `from` forward to slot `j`, in linear form. */
  function Distance(c: nat, from: nat, j: nat): (r: nat)
    requires from < c && j < c
    ensures r < c
    ensures Slot(c, from, r) == j
  {
    if j >= from then j - from else j + c - from
  }

  /** The linear slot is the remainder the source's mask computes. */
  lemma SlotIsMod(c: nat, from: nat, k: nat)
    requires from < c && k < c
    ensures Slot(c, from, k) == (from + k) % c
  {
    ModWrap(from + k, c);
  }

  // ---------------------------------------------------------------------
  // The four space queries

  /**
   * RING_GetFreeSpace: the bytes that can be written before the write
   * cursor would reach the slot just behind the read cursor, in closed form
   * (`FreeAsWritten` is the source's expression; `QueriesMatchSource`
   * shows the two agree).
   */
  function Free(c: nat, h: nat, t: nat): (r: nat)
    requires Cursors(c, h, t)
    ensures r < c
  {
    if h < t then t - h - 1 else c - 1 - (h - t)
  }

  /**
   * RING_GetFullSpace: the bytes stored from the read cursor up to the
   * write cursor; together with the free bytes they make `c - 1`.
   */
  function Full(c: nat, h: nat, t: nat): (r: nat)
    requires Cursors(c, h, t)
    ensures r < c && r + Free(c, h, t) == c - 1
  {
    if h >= t then h - t else c - t + h
  }

  /** RING_GetFreeSpace as written: `((tail + size - head - 1) % size + 1) - 1`. */
  function FreeAsWritten(c: nat, h: nat, t: nat): (r: int)
    requires Cursors(c, h, t)
    ensures 0 <= r < c && (h + r + 1) % c == t
  {
    ModWrap(t + c - h - 1, c);
    ModWrap(h + ((t + c - h - 1) % c + 1 - 1) + 1, c);
    ((t + c - h - 1) % c + 1) - 1
  }

  /** RING_GetFullSpace as written: `size - ((tail + size - head - 1) % size + 1)`. */
  function FullAsWritten(c: nat, h: nat, t: nat): (r: int)
    requires Cursors(c, h, t)
    ensures 0 <= r < c && (t + r) % c == h
  {
    ModWrap(t + c - h - 1, c);
    ModWrap(t + (c - ((t + c - h - 1) % c + 1)), c);
    c - ((t + c - h - 1) % c + 1)
  }

  /**
   * RING_GetFreeLinearSpace as written: the free run from the write cursor
   * that does not cross the end of storage.  The empty state reports
   * `c - 2`, which is negative (a wrapped `size_t`) at capacity 1.
   */
  function FreeLinear(c: nat, h: nat, t: nat): (r: int)
    requires Cursors(c, h, t)
    ensures r < 0 <==> c == 1
    ensures c >= 2 ==> h + r <= c
  {
    if h == 0 && t == 0 then c - 2
    else if h >= t then c - h
    else t - h - 1
  }

  /** RING_GetFullLinearSpace: the stored run from the read cursor up to the end of storage. */
  function FullLinear(c: nat, h: nat, t: nat): (r: nat)
    requires Cursors(c, h, t)
    ensures t + r <= c && r <= Full(c, h, t)
  {
    if h >= t then h - t else c - t
  }

  /**
   * The linear query with its two defects corrected.  The fresh state keeps
   * its `c - 2` from capacity 2 on (one slot less than the free run, as the
   * source returns) and reports 0 at capacity 1; with the read cursor at
   * slot 0 the run stops one slot before the end of storage.  Every answer
   * is within the free space and inside storage.
   */
  function FreeLinearIntended(c: nat, h: nat, t: nat): (r: nat)
    requires Cursors(c, h, t)
    ensures r <= Free(c, h, t) && h + r <= c
    ensures h == 0 && t == 0 ==> r == if c >= 2 then c - 2 else 0
    ensures h != 0 || t != 0 ==> r == Min(Free(c, h, t), c - h)
  {
    if h == 0 && t == 0 then (if c >= 2 then c - 2 else 0)
    else if h >= t then (if t == 0 then c - h - 1 else c - h)
    else t - h - 1
  }

  // ---------------------------------------------------------------------
  // Properties of the queries

  /**
   * The free bytes end just behind the read cursor and the stored bytes end
   * at the write cursor, going round the ring.
   */
  lemma SpaceReachesCursors(c: nat, h: nat, t: nat)
    requires Cursors(c, h, t)
    ensures (h + Free(c, h, t) + 1) % c == t
    ensures (t + Full(c, h, t)) % c == h
  {
    ModWrap(h + Free(c, h, t) + 1, c);
    ModWrap(t + Full(c, h, t), c);
  }

  /**
   * The source's modular expressions for the free and the full space are
   * the closed forms in every state, so neither ever goes below zero.
   */
  lemma QueriesMatchSource(c: nat, h: nat, t: nat)
    requires Cursors(c, h, t)
    ensures FreeAsWritten(c, h, t) == Free(c, h, t)
    ensures FullAsWritten(c, h, t) == Full(c, h, t)
  {
    ModWrap(t + c - h - 1, c);
  }

  /** Free and full space split the `c - 1` usable slots in every state. */
  lemma SpaceAccounting(c: nat, h: nat, t: nat)
    requires Cursors(c, h, t)
    ensures Free(c, h, t) == (t + c - h - 1) % c
    ensures Free(c, h, t) + Full(c, h, t) == c - 1
    ensures Free(c, h, t) <= c - 1 && Full(c, h, t) <= c - 1
    ensures Full(c, h, t) == 0 <==> h == t
  {
    ModWrap(t + c - h - 1, c);
  }

  /**
   * The stored run from the read cursor is the stored bytes cut at the end
   * of storage; it is all of them exactly when they do not wrap.
   */
  lemma FullLinearIsStoredRun(c: nat, h: nat, t: nat)
    requires Cursors(c, h, t)
    ensures FullLinear(c, h, t) == Min(Full(c, h, t), c - t)
    ensures t + FullLinear(c, h, t) <= c
    ensures FullLinear(c, h, t) <= Full(c, h, t)
    ensures FullLinear(c, h, t) == Full(c, h, t) <==> h >= t || h == 0
  {
  }

  /**
   * The linear free query stays within the free space exactly when the read
   * cursor is not at slot 0 or the write cursor is.
   */
  lemma FreeLinearWithinFree(c: nat, h: nat, t: nat)
    requires Cursors(c, h, t)
    ensures FreeLinear(c, h, t) <= Free(c, h, t) <==> t != 0 || h == 0
  {
  }

  /**
   * How the linear free query as written differs from the longest free run
   * inside storage: one less in the empty state at slot 0, one more when the
   * read cursor is at slot 0 and the write cursor is not, equal otherwise.
   */
  lemma FreeLinearAgainstRun(c: nat, h: nat, t: nat)
    requires Cursors(c, h, t)
    ensures FreeLinear(c, h, t) ==
      if h == 0 && t == 0 then Min(Free(c, h, t), c - h) - 1
      else if t == 0 then Min(Free(c, h, t), c - h) + 1
      else Min(Free(c, h, t), c - h)
  {
  }

  /**
   * The corrected query changes only the two defective states: capacity 1
   * when empty, and the read cursor at slot 0 with the write cursor
   * elsewhere.  Everywhere else it is the source's answer.
   */
  lemma IntendedChangesOnlyDefects(c: nat, h: nat, t: nat)
    requires Cursors(c, h, t)
    ensures FreeLinearIntended(c, h, t) != FreeLinear(c, h, t) <==> c == 1 || (t == 0 && h != 0)
    ensures c == 1 ==> FreeLinearIntended(c, h, t) == FreeLinear(c, h, t) + 1
    ensures t == 0 && h != 0 ==> FreeLinearIntended(c, h, t) == FreeLinear(c, h, t) - 1
  {
  }

  /**
   * The grant of a direct write, capped at `n`, taken from the linear free
   * query as the `size_t` the source returns: inside storage from capacity 2
   * on, everything up to the word at capacity 1, and inside storage whenever
   * it is within the free space.
   */
  lemma LinearGrant(c: nat, h: nat, t: nat, n: nat, g: nat)
    requires Cursors(c, h, t) && c < WORD && g == Min(SizeT(FreeLinear(c, h, t)), n)
    ensures c >= 2 ==> h + g <= c
    ensures c == 1 ==> g == Min(WORD - 1, n)
    ensures g <= Free(c, h, t) ==> h + g <= c
  {
    var f := FreeLinear(c, h, t);
    if c == 1 {
      assert f == -1;
      assert SizeT(f) == WORD - 1;
    } else {
      assert 0 <= f < WORD;
      assert SizeT(f) == f;
    }
  }

  /**
   * A direct write as a whole: the write cursor moves by the grant, and when
   * the grant is within the free space the stored bytes grow by the granted
   * stretch of storage.
   */
  lemma DirectGrant<T>(s: seq<T>, c: nat, h: nat, t: nat, n: nat, g: nat, h': nat)
    requires Cursors(c, h, t) && c < WORD && c <= |s|
    requires g == Min(SizeT(FreeLinear(c, h, t)), n) && h' == (h + g) % c
    ensures c >= 2 ==> h + g <= c
    ensures c == 1 ==> g == Min(WORD - 1, n)
    ensures Cursors(c, h', t)
    ensures g <= Free(c, h, t) ==>
      h + g <= c && Full(c, h', t) == Full(c, h, t) + g &&
      Window(s, t, c, Full(c, h', t)) == Window(s, t, c, Full(c, h, t)) + s[h..h + g]
  {
    LinearGrant(c, h, t, n, g);
    if g <= Free(c, h, t) {
      DirectFill(s, s, c, h, t, g);
    }
  }

  /** Advancing the write cursor by at most the free space stores exactly that many more bytes. */
  lemma AdvanceHead(c: nat, h: nat, t: nat, n: nat)
    requires Cursors(c, h, t) && n <= Free(c, h, t)
    ensures Cursors(c, (h + n) % c, t)
    ensures Full(c, (h + n) % c, t) == Full(c, h, t) + n
    ensures Free(c, (h + n) % c, t) == Free(c, h, t) - n
  {
    ModWrap(h + n, c);
  }

  /** Advancing the read cursor by at most the full space drops exactly that many bytes. */
  lemma AdvanceTail(c: nat, h: nat, t: nat, n: nat)
    requires Cursors(c, h, t) && n <= Full(c, h, t)
    ensures Cursors(c, h, (t + n) % c)
    ensures Full(c, h, (t + n) % c) == Full(c, h, t) - n
    ensures Free(c, h, (t + n) % c) == Free(c, h, t) + n
  {
    ModWrap(t + n, c);
  }

  // ---------------------------------------------------------------------
  // The two edge cases of the linear free query

  /**
   * At capacity 1 the empty-state answer `size - 2` is below zero; in the
   * source's unsigned `size_t` it wraps to the largest value.
   */
  lemma CapacityOneUnderflow()
    ensures FreeLinear(1, 0, 0) == -1 && Free(1, 0, 0) == 0
    ensures FreeLinearIntended(1, 0, 0) == 0
  {
  }

  /**
   * With the read cursor at slot 0 and the write cursor elsewhere, taking the
   * whole linear free grant moves the write cursor onto the read cursor,
   * so every stored byte is lost.
   */
  lemma TailZeroGrantEmpties(c: nat, h: nat)
    requires Cursors(c, h, 0) && h > 0
    ensures FreeLinear(c, h, 0) == Free(c, h, 0) + 1
    ensures Full(c, h, 0) == h
    ensures (h + FreeLinear(c, h, 0)) % c == 0
    ensures Full(c, (h + FreeLinear(c, h, 0)) % c, 0) == 0
  {
    DivModUnique(c, c, 1, 0);
  }

  /**
   * The concrete instance: capacity 4, write cursor 3, read cursor 0 is a
   * full buffer, yet one byte is granted and the write cursor lands on the
   * read cursor, which reads as empty.
   */
  lemma FullBufferGrantsOneByte()
    ensures Free(4, 3, 0) == 0 && Full(4, 3, 0) == 3
    ensures FreeLinear(4, 3, 0) == 1
    ensures (3 + FreeLinear(4, 3, 0)) % 4 == 0
  {
  }

  /** The corrected grant never exceeds the free space and never crosses the end of storage. */
  lemma IntendedGrantIsSafe(c: nat, h: nat, t: nat, n: nat)
    requires Cursors(c, h, t) && n <= FreeLinearIntended(c, h, t)
    ensures h + n <= c
    ensures Full(c, (h + n) % c, t) == Full(c, h, t) + n
  {
    AdvanceHead(c, h, t, n);
  }

  // ---------------------------------------------------------------------
  // The stored bytes

  /** The `n` elements of `s` that follow `start` round a ring of `c` slots. */
  function Window<T>(s: seq<T>, start: nat, c: nat, n: nat): (w: seq<T>)
    requires 0 < c <= |s|
    ensures |w| == n
  {
    seq(n, i requires 0 <= i < n => s[(start + i) % c])
  }

  /** A window of `a + b` elements is the first `a` followed by the `b` that come next. */
  lemma WindowSplit<T>(s: seq<T>, start: nat, c: nat, a: nat, b: nat)
    requires 0 < c <= |s|
    ensures Window(s, start, c, a + b) == Window(s, start, c, a) + Window(s, (start + a) % c, c, b)
  {
    var whole, left, rest := Window(s, start, c, a + b), Window(s, start, c, a), Window(s, (start + a) % c, c, b);
    forall i | 0 <= i < a
      ensures whole[i] == left[i]
    {
    }
    forall k | 0 <= k < b
      ensures whole[a + k] == rest[k]
    {
      ModShift(start, a, k, c);
    }
    assert whole == left + rest;
  }

  /** A window that does not reach the end of storage is a plain slice. */
  lemma WindowLinear<T>(s: seq<T>, start: nat, c: nat, n: nat)
    requires 0 < c <= |s| && start + n <= c
    ensures Window(s, start, c, n) == s[start..start + n]
  {
    forall i | 0 <= i < n
      ensures Window(s, start, c, n)[i] == s[start + i]
    {
      DivModUnique(start + i, c, 0, start + i);
    }
  }

  /** No stored byte sits in the free slots that follow the write cursor. */
  lemma StoredAvoidsFree(c: nat, h: nat, t: nat, i: nat, d: nat)
    requires Cursors(c, h, t) && i < Full(c, h, t) && d <= Free(c, h, t)
    ensures (t + i) % c != (h + d) % c
  {
    var f := Full(c, h, t);
    SpaceReachesCursors(c, h, t);
    ModAddMod(t + f, d, c);
    if (t + i) % c == (h + d) % c {
      ModInjective(t, i, f + d, c);
      assert false;
    }
  }

  /** Streaming: storage that agrees on the stored slots gives the same stored bytes. */
  lemma StoredUnchanged<T>(s: seq<T>, s': seq<T>, c: nat, h: nat, t: nat, g: nat)
    requires Cursors(c, h, t) && c <= |s| == |s'| && g <= Free(c, h, t)
    requires forall j :: 0 <= j < c && Distance(c, h, j) >= g ==> s'[j] == s[j]
    ensures Window(s', t, c, Full(c, h, t)) == Window(s, t, c, Full(c, h, t))
  {
    var f := Full(c, h, t);
    var w', w := Window(s', t, c, f), Window(s, t, c, f);
    forall i | 0 <= i < f
      ensures w'[i] == w[i]
    {
      var j := (t + i) % c;
      var d0 := Distance(c, h, j);
      if d0 < g {
        SlotIsMod(c, h, d0);
        StoredAvoidsFree(c, h, t, i, d0);
        assert false;
      }
    }
  }

  /**
   * Writing a byte at the write cursor of a non-full ring appends it to the
   * stored bytes once the cursor moves on.
   */
  lemma PushWindow<T>(s: seq<T>, c: nat, h: nat, t: nat, x: T)
    requires Cursors(c, h, t) && c <= |s| && Free(c, h, t) > 0
    ensures Full(c, (h + 1) % c, t) == Full(c, h, t) + 1
    ensures Window(s[h := x], t, c, Full(c, h, t) + 1) == Window(s, t, c, Full(c, h, t)) + [x]
  {
    var f := Full(c, h, t);
    SpaceReachesCursors(c, h, t);
    AdvanceHead(c, h, t, 1);
    WindowSplit(s[h := x], t, c, f, 1);
    var w', w := Window(s[h := x], t, c, f), Window(s, t, c, f);
    forall i | 0 <= i < f
      ensures w'[i] == w[i]
    {
      StoredAvoidsFree(c, h, t, i, 0);
      DivModUnique(h, c, 0, h);
    }
    assert (t + f) % c == h;
  }

  /** Reading from a non-empty ring yields the byte at the read cursor and drops it. */
  lemma PopWindow<T>(s: seq<T>, c: nat, h: nat, t: nat)
    requires Cursors(c, h, t) && c <= |s| && Full(c, h, t) > 0
    ensures Full(c, h, (t + 1) % c) == Full(c, h, t) - 1
    ensures Window(s, t, c, Full(c, h, t))[0] == s[t]
    ensures Window(s, (t + 1) % c, c, Full(c, h, t) - 1) == Window(s, t, c, Full(c, h, t))[1..]
  {
    AdvanceTail(c, h, t, 1);
    DivModUnique(t, c, 0, t);
    WindowSplit(s, t, c, 1, Full(c, h, t) - 1);
  }

  /**
   * Reserving `g <= Free` bytes at the write cursor appends the bytes then in
   * those slots: whatever fills the slots afterwards becomes the next stored
   * bytes, wrapping or not.
   */
  lemma GrowWindow<T>(s: seq<T>, c: nat, h: nat, t: nat, g: nat)
    requires Cursors(c, h, t) && c <= |s| && g <= Free(c, h, t)
    ensures Full(c, (h + g) % c, t) == Full(c, h, t) + g
    ensures Window(s, t, c, Full(c, h, t) + g) == Window(s, t, c, Full(c, h, t)) + Window(s, h, c, g)
  {
    SpaceReachesCursors(c, h, t);
    AdvanceHead(c, h, t, g);
    WindowSplit(s, t, c, Full(c, h, t), g);
  }

  /** Releasing `g <= Full` bytes at the read cursor drops the first `g` stored bytes. */
  lemma ShrinkWindow<T>(s: seq<T>, c: nat, h: nat, t: nat, g: nat)
    requires Cursors(c, h, t) && c <= |s| && g <= Full(c, h, t)
    ensures Full(c, h, (t + g) % c) == Full(c, h, t) - g
    ensures Window(s, (t + g) % c, c, Full(c, h, t) - g) == Window(s, t, c, Full(c, h, t))[g..]
  {
    AdvanceTail(c, h, t, g);
    WindowSplit(s, t, c, g, Full(c, h, t) - g);
  }

  /**
   * Direct-write round trip: reserve `g <= Free` slots that do not cross the
   * end of storage, fill them in place, and the stored bytes grow by exactly
   * what was put there; the bytes stored before are untouched.
   */
  lemma DirectFill<T>(s: seq<T>, s': seq<T>, c: nat, h: nat, t: nat, g: nat)
    requires Cursors(c, h, t) && c <= |s| == |s'| && g <= Free(c, h, t) && h + g <= c
    requires forall j :: 0 <= j < |s| && !(h <= j < h + g) ==> s'[j] == s[j]
    ensures Full(c, (h + g) % c, t) == Full(c, h, t) + g
    ensures Window(s', t, c, Full(c, h, t) + g) == Window(s, t, c, Full(c, h, t)) + s'[h..h + g]
  {
    GrowWindow(s', c, h, t, g);
    WindowLinear(s', h, c, g);
    StoredUnchanged(s, s', c, h, t, g);
  }

  /**
   * Storage `s` after the first `n` bytes of `src` have been written one
   * by one from slot `h0` round the ring: the slot `d < n` steps after `h0`
   * holds `src[d]`, every other slot is as before.
   */
  ghost function Written<T>(s: seq<T>, c: nat, h0: nat, n: nat, src: seq<T>): (r: seq<T>)
    requires h0 < c && n <= |src|
    ensures |r| == |s|
  {
    seq(|s|, j requires 0 <= j < |s| =>
      if j < c && Distance(c, h0, j) < n then src[Distance(c, h0, j)] else s[j])
  }

  /** Writing the next byte at the slot `i` steps after `h0` extends the run by one. */
  lemma WrittenStep<T>(s: seq<T>, c: nat, h0: nat, i: nat, src: seq<T>)
    requires h0 < c <= |s| && i < c && i < |src|
    ensures Written(s, c, h0, i, src)[Slot(c, h0, i) := src[i]] == Written(s, c, h0, i + 1, src)
  {
    var p := Slot(c, h0, i);
    assert Distance(c, h0, p) == i;
  }

  /** Nothing is written yet. */
  lemma WrittenNone<T>(s: seq<T>, c: nat, h0: nat, src: seq<T>)
    requires h0 < c
    ensures Written(s, c, h0, 0, src) == s
  {
  }

  /**
   * A byte-by-byte write of `n <= Free` bytes from the write cursor `h0`:
   * storage `s'` holds `src[d]` in the slot `d` steps after `h0` for
   * `d < n` and the old contents elsewhere.  Its bytes are then the run from
   * `h0`, and they extend the stored bytes.
   */
  lemma WriteRun<T>(s: seq<T>, s': seq<T>, c: nat, h0: nat, t: nat, n: nat, src: seq<T>)
    requires Cursors(c, h0, t) && c <= |s| == |s'| && n <= Free(c, h0, t) && n <= |src|
    requires s' == Written(s, c, h0, n, src)
    ensures Slot(c, h0, n) == (h0 + n) % c
    ensures Full(c, (h0 + n) % c, t) == Full(c, h0, t) + n
    ensures Window(s', h0, c, n) == src[..n]
    ensures Window(s', t, c, Full(c, h0, t) + n) == Window(s, t, c, Full(c, h0, t)) + src[..n]
  {
    var added := Window(s', h0, c, n);
    forall k | 0 <= k < n
      ensures added[k] == src[k]
    {
      SlotIsMod(c, h0, k);
      assert Distance(c, h0, Slot(c, h0, k)) == k;
    }
    SlotIsMod(c, h0, n);
    GrowWindow(s', c, h0, t, n);
    StoredUnchanged(s, s', c, h0, t, n);
  }
  /** The `i`-th byte of a window lies in the slot `i` steps after its start. */
  lemma WindowAt<T>(s: seq<T>, start: nat, c: nat, n: nat, i: nat)
    requires start < c <= |s| && i < n && n <= c
    ensures Window(s, start, c, n)[i] == s[Slot(c, start, i)]
  {
    SlotIsMod(c, start, i);
  }

  /** Copying the `i`-th byte of `w` into a prefix-copy of `w` over `d` extends the prefix. */
  lemma CopyStep<T>(d: seq<T>, w: seq<T>, i: nat)
    requires i < |w| && i < |d|
    ensures (w[..i] + d[i..])[i := w[i]] == w[..i + 1] + d[i + 1..]
  {
  }
}
