/** What the conversion of a vector's header to host order does to the memory it stands in. */
module ObjectMemory {
  import opened Bytes
  import opened Buffers
  import opened Objects

  lemma FieldRead(mem: bytes, at: nat, n: nat)
    requires at + 4 <= |mem| && mem[at..at + 4] == BE(n, 4) && n < UINT32_LIMIT
    ensures U32(mem, at) == n
  {
    hide BE, FromBE;
    FromBEOfBE4(n);
  }

  /** What follows an encoding does not change what is read inside it. */
  lemma InPrefix(bs: bytes, mem: bytes, a: nat, b: nat)
    requires bs <= mem && a <= b <= |bs|
    ensures mem[a..b] == bs[a..b]
  {
  }

  lemma VectorHeader(es: seq<Obj>, bs: bytes, mem: bytes)
    requires VectorHead(es, bs) && Swapped(es) && |bs| <= MAX_BYTES_PER_BUFFER && bs <= mem
    requires |bs| >= PayloadStart(|es|)
    ensures U32(mem, 0) == CLSID_OBJVEC && U32(mem, 4) == |bs| - BASE_SIZE && U32(mem, 12) == |es| + 1
  {
    hide BE, FromBE;
    InPrefix(bs, mem, 0, 4);
    InPrefix(bs, mem, 4, 8);
    InPrefix(bs, mem, 12, 16);
    FieldRead(mem, 0, CLSID_OBJVEC);
    FieldRead(mem, 4, |bs| - BASE_SIZE);
    FieldRead(mem, 12, |es| + 1);
  }

  lemma {:induction false} OffsetGrows(es: seq<Obj>, i: nat)
    requires i < |es|
    ensures Offset(es, i + 1) == Offset(es, i) + AlignDword(Len(es[i])) <= Offset(es, |es|)
    decreases |es| - i
  {
    if i + 1 < |es| {
      OffsetGrows(es, i + 1);
    }
  }

  lemma {:induction false} OffsetBefore(es: seq<Obj>, k: nat, i: nat)
    requires k < i <= |es|
    ensures Offset(es, k) + Len(es[k]) <= Offset(es, i)
  {
    hide Len;
    if k + 1 < i {
      OffsetBefore(es, k, i - 1);
    }
  }

  lemma {:induction false} SwapGroupsAt(s: bytes, k: nat)
    requires 4 * k + 4 <= |s|
    ensures SwapGroups(s)[4 * k..4 * k + 4] == Reversed(s[4 * k..4 * k + 4])
    decreases k
  {
    hide Reversed;
    var r, later := SwapGroups(s), SwapGroups(s[4..]);
    assert r == Reversed(s[..4]) + later;
    if k == 0 {
      assert r[0..4] == Reversed(s[..4]) && s[0..4] == s[..4];
    } else {
      SwapGroupsAt(s[4..], k - 1);
      GroupOfRest(s, 4 * (k - 1));
      GroupOfRest(r, 4 * (k - 1));
      assert r[4..] == later;
    }
  }

  lemma GroupOfRest(s: bytes, j: nat)
    requires j + 8 <= |s|
    ensures s[4..][j..j + 4] == s[4 + j..4 + j + 4]
  {
  }

  /** The header after ntoh, and what is behind the converted part of the table. */
  lemma NtohHeader(mem: bytes)
    requires |mem| >= HEADER_SIZE
    ensures var h, end := Ntoh(mem), HEADER_SIZE + TableSize(mem);
            && h[..4] == Reversed(mem[..4]) && h[4..8] == Reversed(mem[4..8]) && h[8..12] == mem[8..12]
            && h[12..16] == Reversed(mem[12..16]) && h[end..] == mem[end..]
  {
    hide Reversed, SwapGroups, TableSize;
    var end := HEADER_SIZE + TableSize(mem);
    var front, table := mem[..8], mem[12..end];
    var h := SwapGroups(front) + mem[8..12] + SwapGroups(table) + mem[end..];
    assert h == Ntoh(mem);
    SwapGroupsAt(front, 0);
    SwapGroupsAt(front, 1);
    SwapGroupsAt(table, 0);
    assert front[0..4] == mem[..4] && front[4..8] == mem[4..8] && table[0..4] == mem[12..16];
    assert h[..4] == SwapGroups(front)[0..4] && h[4..8] == SwapGroups(front)[4..8];
    assert h[12..16] == SwapGroups(table)[0..4];
  }

  /** One slot of the converted part of the table. */
  lemma NtohSlot(mem: bytes, k: nat)
    requires |mem| >= HEADER_SIZE && 4 * k + 4 <= TableSize(mem)
    ensures Ntoh(mem)[16 + 4 * k..20 + 4 * k] == Reversed(mem[16 + 4 * k..20 + 4 * k])
  {
    hide Reversed, SwapGroups, TableSize;
    var end, lo := HEADER_SIZE + TableSize(mem), 4 * (k + 1);
    var table, front := mem[12..end], SwapGroups(mem[..8]) + mem[8..12];
    assert Ntoh(mem) == front + SwapGroups(table) + mem[end..];
    SwapGroupsAt(table, k + 1);
    SliceInSlice(mem, 12, end, lo, lo + 4);
    SliceInMiddle(front, SwapGroups(table), mem[end..], lo, lo + 4);
  }

  /** A field converted to host order reads as it did in network order. */
  lemma HostField(mem: bytes, h: bytes, at: nat)
    requires at + 4 <= |mem| && at + 4 <= |h| && h[at..at + 4] == Reversed(mem[at..at + 4])
    ensures H32(h, at) == U32(mem, at)
  {
    hide FromBE;
    assert Reversed(Reversed(mem[at..at + 4])) == mem[at..at + 4];
  }

  /** One offset of an encoded table in network order. */
  lemma TableSlot(es: seq<Obj>, bs: bytes, i: nat)
    requires VectorTable(es, bs) && Swapped(es) && i <= |es|
    ensures 20 + 4 * i <= |bs| && bs[16 + 4 * i..20 + 4 * i] == BE(Offset(es, i), 4)
  {
    hide BE, Offset;
    assert bs[16 + 4 * i..20 + 4 * i] == Field(Offset(es, i), Swapped(es));
  }

  /** An offset read from a table in host order. */
  predicate HostSlot(es: seq<Obj>, mem: bytes, i: nat)
    requires i <= |es|
  {
    20 + 4 * i <= |mem| && H32(mem, 16 + 4 * i) == Offset(es, i)
  }

  /** The place of the element of index `i`, counted from the start of the vector. */
  function Place(es: seq<Obj>, i: nat): (n: nat)
    requires i <= |es|
    ensures n >= PayloadStart(|es|)
  {
    PayloadStart(|es|) + Offset(es, i)
  }

  /** The decoder before its round `i`: a converted table, and the elements from `i` on as they were sent. */
  ghost predicate Pending(es: seq<Obj>, i: nat, mem: bytes)
    requires i <= |es|
  {
    && Place(es, |es|) <= |mem|
    && (forall k :: 0 <= k <= |es| ==> HostSlot(es, mem, k))
    && forall k :: i <= k < |es| ==> ElemAt(es[k], mem, Place(es, k))
  }

  /** Only the bytes from `lo` to `hi` may differ. */
  predicate OnlyWithin(lo: nat, hi: nat, c: bytes, d: bytes) {
    lo <= hi <= |c| == |d| && c[..lo] == d[..lo] && c[hi..] == d[hi..]
  }

  lemma KeptBefore(lo: nat, hi: nat, c: bytes, d: bytes, a: nat, b: nat)
    requires OnlyWithin(lo, hi, c, d) && a <= b <= lo
    ensures c[a..b] == d[a..b]
  {
    assert c[a..b] == c[..lo][a..b] && d[a..b] == d[..lo][a..b];
  }

  lemma KeptAfter(lo: nat, hi: nat, c: bytes, d: bytes, a: nat, b: nat)
    requires OnlyWithin(lo, hi, c, d) && hi <= a <= b <= |c|
    ensures c[a..b] == d[a..b]
  {
    var x, y := c[a..b], d[a..b];
    forall i | 0 <= i < b - a ensures x[i] == y[i] {
      assert c[hi..][a - hi + i] == d[hi..][a - hi + i];
    }
  }

  /** A converted header and table in front of an encoding: the decoder is about to start its loop. */
  lemma PendingStart(es: seq<Obj>, bs: bytes, mem: bytes)
    requires VectorEncodes(es, bs) && Swapped(es) && |bs| <= MAX_BYTES_PER_BUFFER && bs <= mem
    ensures Pending(es, 0, Ntoh(mem)) && Ntoh(mem)[|bs|..] == mem[|bs|..]
  {
    hide VectorHead, VectorTable, ElemAt, Offset, U32, H32, Ntoh, SwapGroups, Encodes, Len;
    VectorHeader(es, bs, mem);
    ConvertedTable(es, mem);
    NtohHeader(mem);
    var h, end := Ntoh(mem), PayloadStart(|es|);
    forall k | 0 <= k <= |es| ensures HostSlot(es, h, k) {
      SlotConverts(es, bs, mem, k);
    }
    forall k | 0 <= k < |es| ensures ElemAt(es[k], h, Place(es, k)) {
      assert ElemAt(es[k], bs, Place(es, k));
      ElemCarried(es[k], bs, mem, h, end, Place(es, k));
    }
    SameEnds(mem, h, end, |bs|);
  }

  lemma ConvertedTable(es: seq<Obj>, mem: bytes)
    requires |mem| >= PayloadStart(|es|) && Swapped(es) && U32(mem, 12) == |es| + 1
    ensures HEADER_SIZE + TableSize(mem) == PayloadStart(|es|)
  {
    hide U32;
  }

  lemma SlotConverts(es: seq<Obj>, bs: bytes, mem: bytes, k: nat)
    requires VectorTable(es, bs) && Swapped(es) && |bs| == Place(es, |es|) <= MAX_BYTES_PER_BUFFER && bs <= mem
    requires k <= |es| && HEADER_SIZE + TableSize(mem) == PayloadStart(|es|)
    ensures HostSlot(es, Ntoh(mem), k)
  {
    hide VectorTable, Offset, U32, H32, Ntoh, TableSize, BE, FromBE, Len;
    TableSlot(es, bs, k);
    NtohSlot(mem, k);
    OffsetAtMost(es, k);
    var at := 16 + 4 * k;
    InPrefix(bs, mem, at, at + 4);
    FieldRead(mem, at, Offset(es, k));
    HostField(mem, Ntoh(mem), at);
  }

  lemma OffsetAtMost(es: seq<Obj>, k: nat)
    requires k <= |es|
    ensures Offset(es, k) <= Offset(es, |es|)
  {
    hide Offset, Len;
    if k < |es| {
      OffsetGrows(es, k);
    }
  }

  lemma ElemCarried(o: Obj, bs: bytes, mem: bytes, h: bytes, end: nat, at: nat)
    requires ElemAt(o, bs, at) && bs <= mem && end <= at && |h| == |mem| && end <= |mem| && h[end..] == mem[end..]
    ensures ElemAt(o, h, at)
  {
    hide Encodes, Len;
    var n := Len(o);
    InPrefix(bs, mem, at, at + n);
    SameEnds(mem, h, end, at);
    assert h[at..at + n] == h[at..][..n] == mem[at..][..n] == mem[at..at + n];
  }

  lemma SameEnds(c: bytes, d: bytes, end: nat, at: nat)
    requires |c| == |d| && end <= at <= |c| && d[end..] == c[end..]
    ensures d[at..] == c[at..]
  {
    assert d[at..] == d[end..][at - end..] && c[at..] == c[end..][at - end..];
  }

  /** An element decoded where it stands, whatever it does to its own bytes: the next one is as it was sent. */
  lemma PendingStep(es: seq<Obj>, i: nat, c: bytes, d: bytes)
    requires i < |es| && Pending(es, i, c)
    requires OnlyWithin(Place(es, i), Place(es, i) + Len(es[i]), c, d)
    ensures Pending(es, i + 1, d)
  {
    hide Offset, Len, Encodes, H32, OnlyWithin;
    var lo, hi := Place(es, i), Place(es, i) + Len(es[i]);
    assert |c| == |d| by {
      SameLength(lo, hi, c, d);
    }
    forall k | 0 <= k <= |es| ensures HostSlot(es, d, k) {
      assert HostSlot(es, c, k);
      SlotStays(es, lo, hi, c, d, k);
    }
    forall k | i + 1 <= k < |es| ensures ElemAt(es[k], d, Place(es, k)) {
      assert ElemAt(es[k], c, Place(es, k));
      OffsetBefore(es, i, k);
      KeptAfter(lo, hi, c, d, Place(es, k), Place(es, k) + Len(es[k]));
    }
  }

  lemma SameLength(lo: nat, hi: nat, c: bytes, d: bytes)
    requires OnlyWithin(lo, hi, c, d)
    ensures |c| == |d|
  {
  }

  lemma SlotStays(es: seq<Obj>, lo: nat, hi: nat, c: bytes, d: bytes, k: nat)
    requires k <= |es| && HostSlot(es, c, k) && OnlyWithin(lo, hi, c, d) && PayloadStart(|es|) <= lo
    ensures HostSlot(es, d, k)
  {
    hide Offset, FromBE, Reversed, OnlyWithin;
    SameLength(lo, hi, c, d);
    KeptBefore(lo, hi, c, d, 16 + 4 * k, 16 + 4 * k + 4);
  }
}
