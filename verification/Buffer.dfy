/**
 The byte buffer: a 48-byte inline store, a heap store and a movable window. `bytes` here are the
 raw contents; the buffer is always of the plain memory data type.
 */
module Buffers {
  import opened Bytes

  const INLINE_SIZE: nat := 48
  const MAX_BYTES_PER_BUFFER: nat := 16 * 1024 * 1024
  const BUF_MAX_SIZE: nat := 512 * 1024 * 1024

  class Buffer {
    // m_arrBuf, m_pData, m_dwSize, m_dwOffset and m_dwTailOff
    const arr: array<byte>
    var data: array?<byte>
    var size: nat
    var off: nat
    var tail: nat
    // heap blocks obtained from the allocator and not given back yet
    ghost var owned: set<array<byte>>
    // every byte of the storage in use, visible or not
    ghost var whole: bytes
    ghost var Repr: set<object>

    /** The window lies inside the storage, and the storage is null, inline or one heap block by size. */
    ghost predicate Valid()
      reads this, Repr
      ensures Valid() ==> this in Repr && arr in Repr && (data != null ==> data in Repr)
      ensures Valid() ==> off <= tail <= size == |whole| <= MAX_BYTES_PER_BUFFER
    {
      && Repr == {this, arr} + owned
      && arr.Length == INLINE_SIZE && arr !in owned
      && off <= tail <= size <= MAX_BYTES_PER_BUFFER
      && (data == null <==> size == 0)
      && (data == arr <==> 0 < size <= INLINE_SIZE)
      && owned == (if size > INLINE_SIZE then {data} else {})
      && (data != null ==> size <= data.Length)
      && whole == (if data == null then [] else data[..size])
    }

    /** The visible bytes. */
    ghost function Contents(): (s: bytes)
      requires off <= tail <= |whole|
      reads this
    {
      whole[off..tail]
    }

    /** The storage holds what `whole` says. */
    lemma Stored(lo: nat, hi: nat)
      requires Valid() && lo <= hi <= size
      ensures data != null ==> whole[lo..hi] == data[lo..hi]
      ensures data == null ==> lo == hi == 0
    {
      if data != null {
        ArraySlice(data, size, lo, hi);
      }
    }

    /** No hidden bytes before or after the window. */
    ghost predicate Plain()
      reads this
    {
      off == 0 && tail == size
    }

    /** A buffer of a wanted size; too large a size is refused without a sign and leaves it empty. */
    constructor (n: nat)
      ensures Valid() && fresh(Repr) && Plain()
      ensures size == if n > MAX_BYTES_PER_BUFFER then 0 else n
    {
      arr := new byte[INLINE_SIZE];
      data := null;
      size, off, tail := 0, 0, 0;
      owned, whole := {}, [];
      Repr := {this, arr};
      new;
      if n > BUF_MAX_SIZE {
        return;
      }
      var _ := Resize(n);
    }

    /** A buffer with a copy of some bytes. */
    constructor From(block: bytes)
      ensures Valid() && fresh(Repr) && Plain()
      ensures whole == if |block| > MAX_BYTES_PER_BUFFER then [] else block
    {
      arr := new byte[INLINE_SIZE];
      data := null;
      size, off, tail := 0, 0, 0;
      owned, whole := {}, [];
      Repr := {this, arr};
      new;
      if |block| <= BUF_MAX_SIZE {
        var _ := Resize(|block|);
      }
      if data != null {
        Poke(0, block);
      }
    }

    method Malloc(n: nat) returns (p: array<byte>)
      modifies this`owned
      ensures fresh(p) && p.Length == n && owned == old(owned) + {p}
    {
      p := new byte[n];
      owned := owned + {p};
    }

    method Calloc(n: nat) returns (p: array<byte>)
      modifies this`owned
      ensures fresh(p) && p.Length == n && owned == old(owned) + {p}
      ensures forall i :: 0 <= i < n ==> p[i] == 0
    {
      p := new byte[n](_ => 0);
      owned := owned + {p};
    }

    /** Releasing a block needs the block to be live: nothing is released twice. */
    method Free(ghost p: array<byte>)
      requires p in owned
      modifies this`owned
      ensures owned == old(owned) - {p}
    {
      owned := owned - {p};
    }

    method Realloc(p: array<byte>, n: nat) returns (q: array<byte>)
      requires p in owned
      modifies this`owned
      ensures fresh(q) && q.Length == n && owned == old(owned) - {p} + {q}
      ensures q[..Min(n, p.Length)] == p[..Min(n, p.Length)]
    {
      q := Malloc(n);
      MemMove(q, 0, p, 0, Min(n, p.Length));
      assert q[..Min(n, p.Length)] == q[..][..Min(n, p.Length)];
      Free(p);
    }

    method SetBuffer(p: array?<byte>, n: nat)
      requires p == null ==> n == 0
      requires p != null ==> n <= p.Length
      modifies this`data, this`size, this`off, this`tail, this`whole, this`Repr
      ensures data == p && size == n && tail == n && off == 0
      ensures whole == (if p == null then [] else p[..n]) && Repr == {this, arr} + owned
    {
      data := p;
      size, tail := n, n;
      off := 0;
      whole := if p == null then [] else p[..n];
      Repr := {this, arr} + owned;
    }

    method Size() returns (n: nat)
      requires Valid()
      ensures n == |Contents()|
    {
      n := tail - off;
    }

    /** The state after a resize to `n` that kept the bytes `kept` at the front. */
    ghost predicate Resized(n: nat, kept: bytes)
      reads this, Repr
    {
      Valid() && Plain() && size == n > 0 && |kept| <= n && whole[..|kept|] == kept
    }

    /** The inline store takes the first `count` visible bytes; a heap block is released. */
    method MoveInline(n: nat, count: nat)
      requires Valid() && 0 < n <= INLINE_SIZE && count <= n && count <= |Contents()|
      modifies Repr
      ensures Resized(n, old(Contents()[..count])) && owned == {}
    {
      ghost var kept := Contents()[..count];
      SliceOfSlice(whole, off, tail, count);
      Stored(off, off + count);
      if count > 0 && (data != arr || off > 0) {
        MemMove(arr, 0, data, off, count);
      }
      assert count > 0 ==> arr[..count] == kept;
      if data != arr && data != null {
        Free(data);
      }
      SetBuffer(arr, n);
      assert data[..count] == kept;
    }

    /** A new heap block takes the first `count` visible bytes out of the inline store. */
    method MoveToHeap(n: nat, count: nat)
      requires Valid() && INLINE_SIZE < n <= MAX_BYTES_PER_BUFFER && count <= n && count <= |Contents()|
      requires size <= INLINE_SIZE
      modifies Repr
      ensures Resized(n, old(Contents()[..count])) && fresh(owned)
    {
      ghost var kept := Contents()[..count];
      SliceOfSlice(whole, off, tail, count);
      Stored(off, off + count);
      var p;
      if n > 1024 {
        p := Calloc(n);
      } else {
        p := Malloc(n);
      }
      if count > 0 {
        MemMove(p, 0, data, off, count);
      }
      assert count > 0 ==> p[..count] == kept;
      SetBuffer(p, n);
      assert data[..count] == kept;
    }

    /** The heap block is shifted down and, when it is too short, reallocated. */
    method MoveInHeap(n: nat, count: nat, realloc: bool)
      requires Valid() && INLINE_SIZE < n <= MAX_BYTES_PER_BUFFER && count <= n && count <= |Contents()|
      requires size > INLINE_SIZE && (n > size ==> realloc)
      modifies Repr
      ensures Resized(n, old(Contents()[..count])) && fresh(owned - old(owned))
    {
      ShiftDown(count);
      var p := data;
      if realloc {
        p := Realloc(data, n);
        ArraySlice(p, Min(n, data.Length), 0, count);
        ArraySlice(data, Min(n, data.Length), 0, count);
      }
      SetBuffer(p, n);
      assert Contents()[..count] == data[..count];
    }

    /** The first `count` visible bytes move to the front of the storage. */
    method ShiftDown(count: nat)
      requires Valid() && data != null && count <= |Contents()|
      modifies data
      ensures data[..count] == old(Contents()[..count])
    {
      SliceOfSlice(whole, off, tail, count);
      Stored(off, off + count);
      if count > 0 && off > 0 {
        MemMove(data, 0, data, off, count);
      }
    }

    /** Resizing a buffer whose window hides bytes. */
    method ResizeWithOffset(n: nat) returns (ret: int)
      requires Valid() && !Plain()
      modifies Repr
      ensures Valid() && fresh(Repr - old(Repr))
      ensures ret == if n == 0 || n > MAX_BYTES_PER_BUFFER then E_INVAL else 0
      ensures ret != 0 || n == old(tail - off) ==> unchanged(this) && Valid()
      ensures ret == 0 && n != old(tail - off) ==>
                Resized(n, old(Contents())[..Min(n, old(|Contents()|))])
    {
      if n == 0 || n > MAX_BYTES_PER_BUFFER {
        return E_INVAL;
      }
      if n == tail - off {
        return 0;
      }
      var inlined := data == arr;
      var count := Min(tail - off, n);
      if INLINE_SIZE >= n && INLINE_SIZE >= size {
        MoveInline(n, count);
      } else if n > INLINE_SIZE && INLINE_SIZE >= size {
        if !inlined {
          // ERROR_STATE in the source: never reached
          assert false;
        }
        MoveToHeap(n, count);
      } else if size > INLINE_SIZE && INLINE_SIZE >= n {
        if inlined {
          // ERROR_STATE in the source: never reached
          assert false;
        }
        MoveInline(n, count);
      } else {
        if inlined {
          // ERROR_STATE in the source: never reached
          assert false;
        }
        MoveInHeap(n, count, n > size);
      }
      return 0;
    }

    /** The visible bytes are kept up to the shorter length; a size over the limit changes nothing. */
    method Resize(n: nat) returns (ret: int)
      requires Valid()
      modifies Repr
      ensures Valid() && fresh(Repr - old(Repr))
      ensures ret == if n > MAX_BYTES_PER_BUFFER then E_2BIG else 0
      ensures ret != 0 || (n == old(tail - off) && n > 0) ==> unchanged(this) && Valid()
      ensures ret == 0 && n == 0 ==> size == 0 && Plain()
      ensures ret == 0 && 0 < n != old(tail - off) ==>
                Resized(n, old(Contents())[..Min(n, old(|Contents()|))])
    {
      if n > MAX_BYTES_PER_BUFFER {
        return E_2BIG;
      }
      if n == 0 {
        if data != null && data != arr {
          Free(data);
        }
        SetBuffer(null, 0);
        return 0;
      }
      if off > 0 || size - tail > 0 {
        ret := ResizeWithOffset(n);
        return;
      }
      if n == size {
        return 0;
      }
      var count := Min(n, size);
      if INLINE_SIZE >= n && INLINE_SIZE >= size {
        MoveInline(n, count);
      } else if n > INLINE_SIZE && INLINE_SIZE >= size {
        MoveToHeap(n, count);
      } else if size > INLINE_SIZE && INLINE_SIZE >= n {
        MoveInline(n, count);
      } else {
        MoveInHeap(n, count, true);
      }
      return 0;
    }

    /** Concatenation, within the size limit that Resize would refuse silently. */
    method Append(block: bytes) returns (ret: int)
      requires Valid()
      requires |Contents()| + |block| <= MAX_BYTES_PER_BUFFER
      modifies Repr
      ensures Valid() && fresh(Repr - old(Repr))
      ensures ret == if |block| == 0 then E_INVAL else 0
      ensures |block| == 0 ==> unchanged(this) && Valid()
      ensures |block| > 0 ==> Plain()
      ensures Contents() == old(Contents()) + block
    {
      if |block| > BUF_MAX_SIZE || |block| == 0 {
        return E_INVAL;
      }
      var oldSize := tail - off;
      var _ := Resize(oldSize + |block|);
      Poke(oldSize, block);
      return 0;
    }

    /** memcpy to a position counted from the front of the storage, wherever the window stands. */
    method PokeBase(pos: nat, block: bytes)
      requires Valid() && pos + |block| <= size
      modifies data, this`whole
      ensures Valid() && whole == Splice(old(whole), pos, block)
    {
      if data != null {
        ghost var was := data[..];
        MemCopy(data, pos, block);
        SpliceSlice(was, pos, block, 0, size);
        whole := data[..size];
      }
    }

    /** memcpy to a position inside the visible bytes. */
    method Poke(pos: nat, block: bytes)
      requires Valid() && pos + |block| <= |Contents()|
      modifies data, this`whole
      ensures Valid() && Contents() == Splice(old(Contents()), pos, block)
    {
      ghost var was := whole;
      PokeBase(off + pos, block);
      SpliceSlice(was, off + pos, block, off, tail);
    }

    /** memcpy out of the first visible bytes. */
    method Front(n: nat) returns (block: bytes)
      requires Valid() && n <= |Contents()|
      ensures block == whole[off..off + n]
    {
      block := if n > 0 then data[off..off + n] else [];
      Stored(off, off + n);
    }

    /** The same, and then the offset moves past them. */
    method Take(n: nat) returns (block: bytes)
      requires Valid() && n <= |Contents()|
      modifies this`off
      ensures Valid() && block == old(Contents()[..n]) && Contents() == old(Contents()[n..])
    {
      hide Valid;
      block := Front(n);
      SliceOfSlice(whole, off, tail, n);
      var _ := IncOffset(n);
    }

    /** memcpy out of all visible bytes. */
    method Read() returns (block: bytes)
      requires Valid()
      ensures block == Contents()
    {
      block := if data == null then [] else data[off..tail];
      Stored(off, tail);
    }

    method SetOffset(n: nat) returns (ret: int)
      requires Valid()
      modifies this`off
      ensures Valid()
      ensures ret == if size == 0 then ERROR_STATE else if n > tail then E_INVAL else 0
      ensures off == if ret == 0 then n else old(off)
    {
      if data == null {
        return ERROR_STATE;
      }
      if n > tail {
        return E_INVAL;
      }
      off := n;
      return 0;
    }

    method IncOffset(n: nat) returns (ret: int)
      requires Valid() && n < UINT32_LIMIT
      modifies this`off
      ensures Valid()
      ensures var to := (old(off) + n) % UINT32_LIMIT;
              && ret == (if size == 0 then ERROR_STATE else if to > tail then E_INVAL else 0)
              && off == (if ret == 0 then to else old(off))
    {
      ret := SetOffset((off + n) % UINT32_LIMIT);
    }

    method SetTailOff(n: nat)
      requires Valid()
      modifies this`tail
      ensures Valid() && tail == Max(Min(n, size), off)
    {
      var t := n;
      if t > size {
        t := size;
      }
      if t < off {
        t := off;
      }
      tail := t;
    }

    method SetWinSize(n: nat)
      requires Valid() && n < UINT32_LIMIT
      modifies this`tail
      ensures Valid() && tail == Max(Min((off + n) % UINT32_LIMIT, size), off)
    {
      SetTailOff((off + n) % UINT32_LIMIT);
    }

    /** The window slides to the next `n` bytes, or does what `SlideOutcome` says when sums wrap. */
    method SlideWindow(n: nat) returns (ret: int)
      requires Valid() && n < UINT32_LIMIT
      modifies this`off, this`tail
      ensures Valid()
      ensures (ret, (off, tail)) == SlideOutcome((old(off), old(tail)), n, size)
    {
      hide Valid, SlideOutcome;
      SlideSums((off, tail), n, size);
      var oldWin := tail - off;
      SetWinSize((oldWin + n) % UINT32_LIMIT);
      ret := IncOffset(oldWin);
    }

    /** A series of slides: what the window shows after each, one after the other, is the storage. */
    method SlideThrough(steps: seq<nat>) returns (seen: bytes)
      requires Valid() && forall k :: 0 <= k < |steps| ==> steps[k] < UINT32_LIMIT - MAX_BYTES_PER_BUFFER
      modifies this`off, this`tail
      ensures Valid() && seen == whole[old(tail)..Min(old(tail) + Sum(steps), size)]
    {
      hide Valid, Sum, Visited, Slide, SlideOutcome;
      seen := [];
      SlidesCover(whole, (off, tail), steps);
      assert steps[0..] == steps;
      var i := 0;
      while i < |steps|
        invariant i <= |steps| && Valid()
        invariant seen + Visited(whole, (off, tail), steps[i..]) == Visited(whole, (old(off), old(tail)), steps)
      {
        VisitedStep(whole, (off, tail), steps, i);
        ghost var next := Slide((off, tail), steps[i], size);
        SlideAlways((off, tail), steps[i], size);
        var _ := SlideWindow(steps[i]);
        assert (off, tail) == next;
        var shown := Read();
        seen := seen + shown;
        i := i + 1;
      }
      VisitedStep(whole, (off, tail), steps, i);
    }
  }

  type Window = (nat, nat)

  /** The window after one slide: it starts where the old one ended. */
  function Slide(w: Window, n: nat, size: nat): Window {
    (w.1, Min(w.1 + n, size))
  }

  /**
   What a slide does: the window after it, or, when the 32-bit sum wraps, nothing to an empty window
   and an error and a loss of bytes to any other.
   */
  function SlideOutcome(w: Window, n: nat, size: nat): (int, Window)
    requires w.0 <= w.1 <= size <= MAX_BYTES_PER_BUFFER && n < UINT32_LIMIT
  {
    if size == 0 then (ERROR_STATE, w)
    else if w.1 + n < UINT32_LIMIT then (0, Slide(w, n, size))
    else if w.0 == w.1 then (0, w)
    else (E_INVAL, (w.0, Max(w.1 + n - UINT32_LIMIT, w.0)))
  }

  /** The two 32-bit sums of a slide: one for the end of the window, one for its start. */
  lemma SlideSums(w: Window, n: nat, size: nat)
    requires w.0 <= w.1 <= size <= MAX_BYTES_PER_BUFFER && n < UINT32_LIMIT
    ensures var len := w.1 - w.0;
            var end, start := (w.0 + (len + n) % UINT32_LIMIT) % UINT32_LIMIT, (w.0 + len) % UINT32_LIMIT;
            var tail := Max(Min(end, size), w.0);
            SlideOutcome(w, n, size) == if size == 0 then (ERROR_STATE, (w.0, tail))
                                        else if start > tail then (E_INVAL, (w.0, tail))
                                        else (0, (start, tail))
  {
    var len := w.1 - w.0;
    Wrapped(len + n);
    Wrapped(w.0 + (len + n) % UINT32_LIMIT);
    Wrapped(w.0 + len);
  }

  lemma Wrapped(n: nat)
    requires n < 2 * UINT32_LIMIT
    ensures n % UINT32_LIMIT == if n < UINT32_LIMIT then n else n - UINT32_LIMIT
  {
  }

  /** A slide succeeds and moves on exactly when the sum does not wrap, or there is nothing to move on to. */
  lemma SlideExact(w: Window, n: nat, size: nat)
    requires w.0 <= w.1 <= size <= MAX_BYTES_PER_BUFFER && n < UINT32_LIMIT
    ensures SlideOutcome(w, n, size) == (0, Slide(w, n, size))
            <==> size > 0 && (w.1 + n < UINT32_LIMIT || w.0 == w.1 == size)
  {
  }

  /** Inputs that wrap: two visible bytes of which one is lost, and an empty window that stays where it is. */
  lemma SlideWraps()
    ensures SlideOutcome((0, 2), 0xFFFF_FFFF, 2) == (E_INVAL, (0, 1))
    ensures SlideOutcome((1, 1), 0xFFFF_FFFF, 2) == (0, (1, 1)) && Slide((1, 1), 0xFFFF_FFFF, 2) == (1, 2)
  {
  }

  /** The bytes shown by each window of a series of slides, one after the other. */
  function Visited(whole: bytes, w: Window, steps: seq<nat>): bytes
    requires w.0 <= w.1 <= |whole|
    decreases |steps|
  {
    if steps == [] then []
    else
      var next := Slide(w, steps[0], |whole|);
      whole[next.0..next.1] + Visited(whole, next, steps[1..])
  }

  lemma VisitedStep(whole: bytes, w: Window, steps: seq<nat>, i: nat)
    requires w.0 <= w.1 <= |whole| && i <= |steps|
    ensures i == |steps| ==> Visited(whole, w, steps[i..]) == []
    ensures i < |steps| ==>
              var next := Slide(w, steps[i], |whole|);
              Visited(whole, w, steps[i..]) == whole[next.0..next.1] + Visited(whole, next, steps[i + 1..])
  {
    if i < |steps| {
      assert steps[i..][1..] == steps[i + 1..];
    }
  }

  /** Steps that cannot wrap: also the window of an empty buffer is where a slide would leave it. */
  lemma SlideAlways(w: Window, n: nat, size: nat)
    requires w.0 <= w.1 <= size <= MAX_BYTES_PER_BUFFER && n < UINT32_LIMIT - MAX_BYTES_PER_BUFFER
    ensures SlideOutcome(w, n, size).1 == Slide(w, n, size)
    ensures var next := Slide(w, n, size); w.1 == next.0 <= next.1 <= size
  {
  }

  function Sum(s: seq<nat>): nat {
    if s == [] then 0 else s[0] + Sum(s[1..])
  }

  /** Slides visit consecutive slices: nothing is skipped, nothing is seen twice, up to the last byte. */
  lemma {:induction false} SlidesCover(whole: bytes, w: Window, steps: seq<nat>)
    requires w.0 <= w.1 <= |whole|
    ensures Visited(whole, w, steps) == whole[w.1..Min(w.1 + Sum(steps), |whole|)]
    decreases |steps|
  {
    if steps != [] {
      var next := Slide(w, steps[0], |whole|);
      SlidesCover(whole, next, steps[1..]);
    }
  }
}
