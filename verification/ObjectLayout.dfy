/**
 What the serializers of buffers, property maps and vectors do to the bytes: which objects they accept,
 how the output buffer of a property map grows, and how single writes add up to an encoding.
 */
module ObjectLayout {
  import opened Bytes
  import opened Buffers
  import opened ObjectMemory
  import opened Objects
  import opened ObjectProofs

  /** getpagesize() is at least this on every host. */
  const MIN_PAGE: nat := 4096

  // ---- What can be written ----

  /** No null pointer anywhere below: serializing one fails. */
  ghost predicate NullFree(o: Obj)
    decreases o, 1
  {
    match o
    case Null => false
    case Config(ps) => forall i :: 0 <= i < |ps| ==> BufNullFree(ps[i].val)
    case Vector(es) => forall i :: 0 <= i < |es| ==> NullFree(es[i])
    case Ints(_) | Qwords(_) => true
    case Boxed(b) => BufNullFree(b)
  }

  ghost predicate BufNullFree(b: Buf)
    decreases b
  {
    b.Ref? ==> NullFree(b.obj)
  }

  /** The bytes a value occupies in memory: what a pointer takes when the value is an object. */
  function MemSize(b: Buf): nat {
    match b
    case Empty => 0
    case Mem(_, data) => |data|
    case Ref(_) => SIZEOF_OBJPTR
  }

  /** The size of the first `i` entries as estimated before anything is serialized. */
  function Estimate(ps: seq<Prop>, i: nat): nat
    requires i <= |ps|
  {
    if i == 0 then 0 else Estimate(ps, i - 1) + 8 + MemSize(ps[i - 1].val)
  }

  /** The room after making sure that a key and a size fit. */
  function KeyCap(cap: nat, loc: nat, page: nat): nat {
    if cap - loc > 8 then cap else cap + page
  }

  /** The room after making sure that a value of `n` bytes fits. */
  function ValCap(cap: nat, loc: nat, n: nat, page: nat): nat {
    if cap - loc >= n then cap else cap + AlignDword(n) + page
  }

  function EntryCap(p: Prop, cap: nat, loc: nat, page: nat): (r: nat)
    ensures r >= cap
  {
    ValCap(KeyCap(cap, loc, page), loc + 8, BufLen(p.val), page)
  }

  /** The size of the output buffer after `i` entries. */
  function Cap(ps: seq<Prop>, i: nat, page: nat): nat
    requires i <= |ps|
  {
    if i == 0 then HEADER_SIZE + Estimate(ps, |ps|) + page
    else EntryCap(ps[i - 1], Cap(ps, i - 1, page), HEADER_SIZE + PropOffset(ps, i - 1), page)
  }

  /** No buffer on the way grows over the limit, which a resize would refuse without a sign. */
  ghost predicate Fits(o: Obj, page: nat)
    decreases o, 1
  {
    match o
    case Null | Ints(_) | Qwords(_) => true
    case Config(ps) =>
      Cap(ps, |ps|, page) <= MAX_BYTES_PER_BUFFER
      && forall i :: 0 <= i < |ps| ==> BufFits(ps[i].val, page)
    case Vector(es) => forall i :: 0 <= i < |es| ==> Fits(es[i], page)
    case Boxed(b) => BufFits(b, page)
  }

  ghost predicate BufFits(b: Buf, page: nat)
    decreases b
  {
    BufLen(b) <= MAX_BYTES_PER_BUFFER && (b.Ref? ==> Fits(b.obj, page))
  }

  /** The output buffer is never much larger than the estimate, or than what is written, one more value and a page. */
  lemma {:induction false} CapBounded(ps: seq<Prop>, i: nat, page: nat, longest: nat)
    requires i <= |ps| && page >= MIN_PAGE
    requires forall k :: 0 <= k < |ps| ==> AlignDword(BufLen(ps[k].val)) <= longest
    ensures Cap(ps, i, page) <= HEADER_SIZE + page + Max(Estimate(ps, |ps|), PropOffset(ps, i) + longest)
  {
    hide BufLen;
    if i > 0 {
      CapBounded(ps, i - 1, page, longest);
      assert AlignDword(BufLen(ps[i - 1].val)) <= longest;
    }
  }

  lemma CapStart(ps: seq<Prop>, page: nat)
    ensures Cap(ps, 0, page) == HEADER_SIZE + Estimate(ps, |ps|) + page
  {
    hide Estimate;
  }

  lemma {:induction false} CapGrows(ps: seq<Prop>, i: nat, page: nat)
    requires i <= |ps|
    ensures Cap(ps, i, page) <= Cap(ps, |ps|, page)
    decreases |ps| - i
  {
    hide BufLen, Estimate, PropOffset;
    if i < |ps| {
      CapGrows(ps, i + 1, page);
    }
  }

  // ---- Buffers ----

  /** strncpy of a block into one of the same size. */
  function StrNCopy(s: bytes): (r: bytes)
    ensures |r| == |s|
  {
    if s == [] then []
    else if s[0] == 0 then seq(|s|, _ => 0)
    else [s[0]] + StrNCopy(s[1..])
  }

  lemma {:induction false} StrNCopyThenZero(s: bytes)
    requires s != []
    ensures Splice(StrNCopy(s), |s| - 1, [0]) == StrCopy(s)
  {
    if s[0] != 0 && |s| > 1 {
      StrNCopyThenZero(s[1..]);
      assert Splice(StrNCopy(s), |s| - 1, [0]) == [s[0]] + Splice(StrNCopy(s[1..]), |s| - 2, [0]);
    }
  }

  lemma BufHeadWritten(b: Buf, c0: bytes)
    requires |c0| >= BUF_HEADER_SIZE
    ensures BufHead(b, Splice(Splice(c0, 0, BE(CLSID_BUFFER, 4) + BE(|c0| - BUF_HEADER_SIZE, 4) + [1]), 12,
                              BE(BufType(b), 4) + BE(if b.Ref? then Clsid(b.obj) else 0, 4)))
  {
    hide BE, BufType, Clsid, Splice;
    var size := BE(|c0| - BUF_HEADER_SIZE, 4);
    var kind, clsid := BE(BufType(b), 4), BE(if b.Ref? then Clsid(b.obj) else 0, 4);
    TwoBlocks(c0, BE(CLSID_BUFFER, 4), size, kind, clsid);
    var c := Splice(Splice(c0, 0, BE(CLSID_BUFFER, 4) + size + [1]), 12, kind + clsid);
    assert c[..4] == BE(CLSID_BUFFER, 4) && c[4..8] == size && c[12..16] == kind && c[16..20] == clsid;
    assert BufHead(b, c);
  }

  lemma TwoBlocks(c0: bytes, clsid: bytes, size: bytes, kind: bytes, objClsid: bytes)
    requires |c0| >= BUF_HEADER_SIZE && |clsid| == |size| == |kind| == |objClsid| == 4
    ensures var c := Splice(Splice(c0, 0, clsid + size + [1]), 12, kind + objClsid);
            && c[..4] == clsid && c[4..8] == size && c[8] == 1
            && c[12..16] == kind && c[16..20] == objClsid
  {
    var mid := Splice(c0, 0, clsid + size + [1]);
    assert mid[..4] == clsid && mid[4..8] == size && mid[8] == 1;
  }

  lemma BufHeadKept(b: Buf, c: bytes, payload: bytes)
    requires BufHead(b, c) && BUF_HEADER_SIZE + |payload| == |c|
    ensures BufHead(b, Splice(c, BUF_HEADER_SIZE, payload))
    ensures Splice(c, BUF_HEADER_SIZE, payload)[20..] == payload
  {
    hide BE, BufType, Clsid, Splice;
    var d := Splice(c, BUF_HEADER_SIZE, payload);
    SpliceOutside(c, 20, payload, 0, 4);
    SpliceOutside(c, 20, payload, 4, 8);
    SpliceOutside(c, 20, payload, 8, 9);
    SpliceOutside(c, 20, payload, 12, 16);
    SpliceOutside(c, 20, payload, 16, 20);
    SpliceInside(c, 20, payload, 0, |payload|);
    assert d[8] == d[8..9][0] == c[8..9][0];
    assert d[20..20 + |payload|] == d[20..] && payload[0..|payload|] == payload;
  }

  lemma NullIsNull(o: Obj)
    requires o.Null?
    ensures !NullFree(o)
  {
  }

  lemma EncodesLen(o: Obj, bs: bytes)
    requires Encodes(o, bs)
    ensures |bs| == Len(o)
  {
  }

  lemma EncodesCase(o: Obj, bs: bytes)
    requires match o
             case Null => false
             case Boxed(b) => BufEncodes(b, bs)
             case Config(ps) => ConfigEncodes(ps, bs)
             case Vector(es) => VectorEncodes(es, bs)
             case Ints(xs) => NumsEncode(CLSID_INTVEC, 4, xs, bs)
             case Qwords(xs) => NumsEncode(CLSID_QWVEC, 8, xs, bs)
    ensures Encodes(o, bs)
  {
    hide Offset, PropOffset, NumBytes, BE;
    match o
    case Ints(xs) => NumBytesLen(4, xs);
    case Qwords(xs) => NumBytesLen(8, xs);
    case _ =>
  }

  // ---- Property maps ----

  /** The entries written so far, each at its place. */
  ghost predicate Written(ps: seq<Prop>, n: nat, bs: bytes)
    requires n <= |ps|
  {
    forall i :: 0 <= i < n ==> PropAt(ps[i], bs, HEADER_SIZE + PropOffset(ps, i))
  }

  /** Two byte strings that agree before the cursor, or as far as the shorter one goes. */
  predicate SameBefore(loc: nat, c: bytes, d: bytes) {
    Min(loc, |c|) <= |d| && c[..Min(loc, |c|)] == d[..Min(loc, |c|)]
  }

  /** An entry written before the cursor is still there as long as the bytes before the cursor are. */
  lemma PropKept(p: Prop, at: nat, loc: nat, c: bytes, d: bytes)
    requires PropAt(p, c, at) && at + PropLen(p) <= loc && SameBefore(loc, c, d)
    ensures PropAt(p, d, at)
  {
    hide BufEncodes, BufLen;
    var n := BufLen(p.val);
    SamePart(loc, c, d, at, at + 4);
    SamePart(loc, c, d, at + 4, at + 8);
    SamePart(loc, c, d, at + 8, at + 8 + n);
  }

  lemma SamePart(loc: nat, c: bytes, d: bytes, a: nat, b: nat)
    requires SameBefore(loc, c, d) && a <= b <= loc && b <= |c|
    ensures c[a..b] == d[a..b]
  {
    var m := Min(loc, |c|);
    assert c[a..b] == c[..m][a..b] == d[..m][a..b] == d[a..b];
  }

  lemma WrittenKept(ps: seq<Prop>, n: nat, c: bytes, d: bytes)
    requires n <= |ps| && Written(ps, n, c) && SameBefore(HEADER_SIZE + PropOffset(ps, n), c, d)
    ensures Written(ps, n, d)
  {
    hide PropAt, PropOffset, PropLen;
    forall i | 0 <= i < n ensures PropAt(ps[i], d, HEADER_SIZE + PropOffset(ps, i)) {
      PropOffsetBefore(ps, i, n);
      PropKept(ps[i], HEADER_SIZE + PropOffset(ps, i), HEADER_SIZE + PropOffset(ps, n), c, d);
    }
  }

  lemma {:induction false} PropOffsetBefore(ps: seq<Prop>, i: nat, n: nat)
    requires i < n <= |ps|
    ensures PropOffset(ps, i) + PropLen(ps[i]) <= PropOffset(ps, n)
  {
    if i + 1 < n {
      PropOffsetBefore(ps, i, n - 1);
    }
  }

  lemma SameBeforeChain(loc: nat, further: nat, c: bytes, d: bytes, e: bytes)
    requires SameBefore(loc, c, d) && loc <= further && SameBefore(further, d, e)
    ensures SameBefore(loc, c, e)
  {
    var m := Min(loc, |c|);
    SamePart(further, d, e, 0, m);
    assert d[0..m] == d[..m] && e[0..m] == e[..m];
  }

  lemma SpliceSameBefore(loc: nat, c: bytes, pos: nat, block: bytes)
    requires loc <= pos && pos + |block| <= |c|
    ensures SameBefore(loc, c, Splice(c, pos, block))
  {
  }

  /** What one round of the loop leaves: the bytes before the cursor, one more entry, a little more room. */
  ghost predicate EntryAdded(p: Prop, loc: nat, page: nat, c: bytes, d: bytes) {
    && SameBefore(loc, c, d) && PropAt(p, d, loc)
    && |d| == EntryCap(p, |c|, loc, page)
  }

  /** The key, and then the value with its size, make an entry. */
  lemma EntryWritten(p: Prop, val: bytes, loc: nat, page: nat, c: bytes, mid: bytes, d: bytes)
    requires BufEncodes(p.val, val)
    requires KeyPut(p.key, loc, page, c, mid) && ValuePut(val, loc, page, mid, d)
    ensures EntryAdded(p, loc, page, c, d)
  {
    hide BE, BufEncodes, BufLen, SameBefore;
    BufEncodesLen(p.val, val);
    SameBeforeChain(loc, loc + 4, c, mid, d);
    SamePart(loc + 4, mid, d, loc, loc + 4);
  }

  predicate KeyPut(key: nat, loc: nat, page: nat, c: bytes, d: bytes) {
    && SameBefore(loc, c, d) && loc + 8 <= |d| == KeyCap(|c|, loc, page)
    && d[loc..loc + 4] == BE(key, 4)
  }

  predicate ValuePut(val: bytes, loc: nat, page: nat, c: bytes, d: bytes) {
    && SameBefore(loc + 4, c, d) && loc + 8 + |val| <= |d| == ValCap(|c|, loc + 8, |val|, page)
    && d[loc + 4..loc + 8] == BE(AlignDword(|val|), 4) && d[loc + 8..loc + 8 + |val|] == val
  }

  lemma ValueWritten(val: bytes, size: bytes, loc: nat, c: bytes, c1: bytes)
    requires SameBefore(loc + 4, c, c1) && loc + 8 + |val| <= |c1| && |size| == 4
    ensures var d := Splice(Splice(c1, loc + 8, val), loc + 4, size);
            && SameBefore(loc + 4, c, d) && d[loc + 4..loc + 8] == size && d[loc + 8..loc + 8 + |val|] == val
  {
    hide Splice, SameBefore;
    var c2 := Splice(c1, loc + 8, val);
    var d := Splice(c2, loc + 4, size);
    SpliceSameBefore(loc + 4, c1, loc + 8, val);
    SpliceSameBefore(loc + 4, c2, loc + 4, size);
    SameBeforeChain(loc + 4, loc + 4, c, c1, c2);
    SameBeforeChain(loc + 4, loc + 4, c, c2, d);
    SpliceInside(c1, loc + 8, val, 0, |val|);
    SpliceOutside(c2, loc + 4, size, loc + 8, loc + 8 + |val|);
    SpliceInside(c2, loc + 4, size, 0, 4);
    assert val[0..|val|] == val && size[0..4] == size;
  }

  lemma BufEncodesLen(b: Buf, bs: bytes)
    requires BufEncodes(b, bs)
    ensures |bs| == BufLen(b)
  {
  }

  /** The header of a map but for its size field. */
  predicate HeadWritten(n: nat, c: bytes) {
    && |c| >= HEADER_SIZE
    && c[..4] == BE(CLSID_CONFIG, 4) && c[8..12] == [1, 0, 0, 0] && c[12..16] == BE(n, 4)
  }

  lemma HeadPoked(n: nat, size: nat, c: bytes)
    requires |c| >= HEADER_SIZE
    ensures HeadWritten(n, Splice(c, 0, Header(CLSID_CONFIG, size) + BE(n, 4)))
  {
    hide BE, Splice;
    var h := Header(CLSID_CONFIG, size) + BE(n, 4);
    assert h[0..4] == BE(CLSID_CONFIG, 4) && h[8..12] == [1, 0, 0, 0] && h[12..16] == BE(n, 4);
    SpliceInside(c, 0, h, 0, 4);
    SpliceInside(c, 0, h, 8, 12);
    SpliceInside(c, 0, h, 12, 16);
  }

  lemma HeadKept(n: nat, loc: nat, c: bytes, d: bytes)
    requires HeadWritten(n, c) && loc >= HEADER_SIZE && SameBefore(loc, c, d)
    ensures HeadWritten(n, d)
  {
    hide BE;
    SamePart(loc, c, d, 0, 4);
    SamePart(loc, c, d, 8, 12);
    SamePart(loc, c, d, 12, 16);
  }

  /** The size field and the final cut turn what the loop wrote into an encoding. */
  lemma ConfigDone(ps: seq<Prop>, loc: nat, c: bytes, d: bytes)
    requires HeadWritten(|ps|, c) && Written(ps, |ps|, c)
    requires loc == HEADER_SIZE + PropOffset(ps, |ps|) == |d|
    requires SameBefore(loc, Splice(c, 4, BE(loc - BASE_SIZE, 4)), d)
    ensures ConfigEncodes(ps, d)
  {
    hide BE, Splice, PropAt, PropLen, PropOffset, SameBefore;
    var size := BE(loc - BASE_SIZE, 4);
    var e := Splice(c, 4, size);
    SpliceOutside(c, 4, size, 0, 4);
    SpliceInside(c, 4, size, 0, 4);
    SpliceOutside(c, 4, size, 8, 12);
    SpliceOutside(c, 4, size, 12, 16);
    HeadKept(|ps|, loc, e, d);
    SamePart(loc, e, d, 4, 8);
    assert size[0..4] == size;
    assert d[..16] == d[..4] + d[4..8] + d[8..12] + d[12..16];
    forall i | 0 <= i < |ps| ensures PropAt(ps[i], d, HEADER_SIZE + PropOffset(ps, i)) {
      var at := HEADER_SIZE + PropOffset(ps, i);
      PropPastHeader(ps[i], at, c, size);
      PropOffsetBefore(ps, i, |ps|);
      PropKept(ps[i], at, loc, e, d);
    }
  }

  lemma PropPastHeader(p: Prop, at: nat, c: bytes, size: bytes)
    requires PropAt(p, c, at) && at >= HEADER_SIZE && |size| == 4
    ensures PropAt(p, Splice(c, 4, size), at)
  {
    hide BE, Splice, BufEncodes, BufLen;
    var n := BufLen(p.val);
    SpliceOutside(c, 4, size, at, at + 4);
    SpliceOutside(c, 4, size, at + 4, at + 8);
    SpliceOutside(c, 4, size, at + 8, at + 8 + n);
  }

  lemma GrowSame(loc: nat, c: bytes, d: bytes)
    requires |c| <= |d| && d[..|c|] == c
    ensures SameBefore(loc, c, d)
  {
    var m := Min(loc, |c|);
    assert d[..m] == d[..|c|][..m];
  }

  lemma CutSame(loc: nat, c: bytes, d: bytes)
    requires |d| == loc && d[..Min(loc, |c|)] == c[..Min(loc, |c|)]
    ensures SameBefore(loc, c, d)
  {
  }

  lemma NothingWritten(ps: seq<Prop>, c: bytes)
    requires HeadWritten(|ps|, c)
    ensures Written(ps, 0, c) && |c| >= HEADER_SIZE
  {
  }

  /** The loop invariant after one more entry. */
  lemma EntryCounted(ps: seq<Prop>, i: nat, page: nat, c: bytes, d: bytes)
    requires i < |ps| && |c| == Cap(ps, i, page) && HeadWritten(|ps|, c) && Written(ps, i, c)
    requires EntryAdded(ps[i], HEADER_SIZE + PropOffset(ps, i), page, c, d)
    ensures |d| == Cap(ps, i + 1, page) && HeadWritten(|ps|, d) && Written(ps, i + 1, d)
    ensures PropOffset(ps, i + 1) == PropOffset(ps, i) + PropLen(ps[i])
  {
    hide BE, PropAt, EntryCap, PropLen, SameBefore, HeadWritten, Estimate, PropOffset, Cap;
    var loc := HEADER_SIZE + PropOffset(ps, i);
    HeadKept(|ps|, loc, c, d);
    WrittenKept(ps, i, c, d);
    PropOffsetGrows(ps, i);
    NextCap(ps, i, page);
    forall k | 0 <= k < i + 1 ensures PropAt(ps[k], d, HEADER_SIZE + PropOffset(ps, k)) {
    }
  }

  lemma NextCap(ps: seq<Prop>, i: nat, page: nat)
    requires i < |ps|
    ensures Cap(ps, i + 1, page) == EntryCap(ps[i], Cap(ps, i, page), HEADER_SIZE + PropOffset(ps, i), page)
  {
    hide EntryCap, Estimate, PropOffset;
  }

  // ---- Vectors of numbers ----

  lemma {:induction false} NumBytesAppend(w: nat, xs: seq<nat>, x: nat)
    ensures NumBytes(w, xs + [x]) == NumBytes(w, xs) + BE(x, w)
  {
    hide BE;
    if xs == [] {
      assert xs + [x] == [x];
      assert [x][1..] == [];
    } else {
      NumBytesAppend(w, xs[1..], x);
      assert (xs + [x])[1..] == xs[1..] + [x];
    }
  }

  lemma NumsLeft(w: nat, xs: seq<nat>, i: nat)
    requires i < |xs|
    ensures |NumBytes(w, xs[i..])| == w + |NumBytes(w, xs[i + 1..])|
  {
    assert xs[i..][1..] == xs[i + 1..];
  }

  lemma NumPut(w: nat, xs: seq<nat>, i: nat, head: bytes, c: bytes, elem: nat)
    requires i < |xs| && elem + w <= |c| && c[..elem] == head + NumBytes(w, xs[..i])
    ensures Splice(c, elem, BE(xs[i], w))[..elem + w] == head + NumBytes(w, xs[..i + 1])
  {
    hide BE, NumBytes, Splice;
    SplicePrefix(c, elem, BE(xs[i], w));
    NumBytesAppend(w, xs[..i], xs[i]);
    assert xs[..i + 1] == xs[..i] + [xs[i]];
  }

  lemma NoNums(w: nat, xs: seq<nat>)
    ensures NumBytes(w, xs[..0]) == [] == NumBytes(w, xs[|xs|..])
    ensures xs[0..] == xs
  {
  }

  lemma SplicePrefix(s: bytes, pos: nat, block: bytes)
    requires pos + |block| <= |s|
    ensures Splice(s, pos, block)[..pos + |block|] == s[..pos] + block
  {
  }

  // ---- Vectors of objects ----

  /** Equal up to `at`. */
  lemma SameFront(c: bytes, d: bytes, at: nat, a: nat, b: nat)
    requires a <= b <= at <= |c| && at <= |d| && c[..at] == d[..at]
    ensures c[a..b] == d[a..b]
  {
    assert c[a..b] == c[..at][a..b] && d[a..b] == d[..at][a..b];
  }

  /** Equal from `at` on. */
  lemma SameBack(c: bytes, d: bytes, at: nat, a: nat, b: nat)
    requires at <= a <= b <= |c| == |d| && c[at..] == d[at..]
    ensures c[a..b] == d[a..b]
  {
    forall i | 0 <= i < b - a ensures c[a..b][i] == d[a..b][i] {
      assert c[at..][a - at + i] == d[at..][a - at + i];
    }
  }

  /** Only the four bytes at `at` differ, and they are `field` now. */
  predicate FieldPut(c: bytes, d: bytes, at: nat, field: bytes) {
    && at + 4 <= |c| == |d| && |field| == 4
    && d[..at] == c[..at] && d[at..at + 4] == field && d[at + 4..] == c[at + 4..]
  }

  predicate SlotSwapped(c: bytes, d: bytes, k: nat)
    requires |c| == |d|
  {
    20 + 4 * k <= |c| && d[16 + 4 * k..20 + 4 * k] == Reversed(c[16 + 4 * k..20 + 4 * k])
  }

  /** A vector's memory before and after hton. */
  predicate Converted(count: nat, c: bytes, d: bytes) {
    && HEADER_SIZE + 4 * count <= |c| == |d|
    && if count > MAX_ELEM_CONTAINER then d == c
       else
         && d[..4] == Reversed(c[..4]) && d[4..8] == Reversed(c[4..8]) && d[12..16] == Reversed(c[12..16])
         && d[8..12] == c[8..12] && d[HEADER_SIZE + 4 * count..] == c[HEADER_SIZE + 4 * count..]
         && forall k :: 0 <= k < count ==> SlotSwapped(c, d, k)
  }

  lemma FieldPutLen(c: bytes, d: bytes, at: nat, field: bytes)
    requires FieldPut(c, d, at, field)
    ensures |d| == |c|
  {
  }

  /** The first `i` slots are converted and nothing else is changed. */
  predicate TableConverted(i: nat, c: bytes, d: bytes) {
    && HEADER_SIZE + 4 * i <= |c| == |d| && d[..16] == c[..16]
    && d[HEADER_SIZE + 4 * i..] == c[HEADER_SIZE + 4 * i..]
    && forall k :: 0 <= k < i ==> SlotSwapped(c, d, k)
  }

  lemma SlotConverted(i: nat, c: bytes, d: bytes, e: bytes)
    requires TableConverted(i, c, d) && HEADER_SIZE + 4 * (i + 1) <= |c|
    requires FieldPut(d, e, HEADER_SIZE + 4 * i, Reversed(d[HEADER_SIZE + 4 * i..HEADER_SIZE + 4 * i + 4]))
    ensures TableConverted(i + 1, c, e)
  {
    hide Reversed;
    var at := HEADER_SIZE + 4 * i;
    SameBack(c, d, at, at, at + 4);
    SameBack(c, d, at, at + 4, |c|);
    SameFront(d, e, at, 0, 16);
    forall k | 0 <= k < i ensures SlotSwapped(c, e, k) {
      assert SlotSwapped(c, d, k);
      SameFront(d, e, at, 16 + 4 * k, 20 + 4 * k);
    }
  }

  lemma BackKept(c: bytes, d: bytes, at: nat, a: nat, b: nat)
    requires at + 4 <= |d| && FieldPut(c, d, at, d[at..at + 4]) && at + 4 <= a <= b <= |c|
    ensures d[a..b] == c[a..b]
  {
    SameBack(d, c, at + 4, a, b);
  }

  lemma SlotKept(c: bytes, d: bytes, e: bytes, k: nat)
    requires |c| == |d| == |e| && SlotSwapped(c, d, k) && e[16..] == d[16..]
    ensures SlotSwapped(c, e, k)
  {
    hide Reversed;
    SameBack(e, d, 16, 16 + 4 * k, 20 + 4 * k);
  }

  lemma HeaderConverted(count: nat, c: bytes, d: bytes, d1: bytes, d2: bytes, e: bytes)
    requires count <= MAX_ELEM_CONTAINER && TableConverted(count, c, d)
    requires FieldPut(d, d1, 12, Reversed(d[12..16]))
    requires FieldPut(d1, d2, 0, Reversed(d1[0..4]))
    requires FieldPut(d2, e, 4, Reversed(d2[4..8]))
    ensures Converted(count, c, e)
  {
    hide Reversed, SlotSwapped;
    BackKept(d, d1, 12, 16, |c|);
    BackKept(d1, d2, 0, 16, |c|);
    BackKept(d2, e, 4, 16, |c|);
    assert e[16..] == d[16..];
    SameFront(c, d, 16, 0, 4);
    SameFront(c, d, 16, 4, 8);
    SameFront(c, d, 16, 8, 12);
    SameFront(c, d, 16, 12, 16);
    SameFront(d, d1, 12, 0, 4);
    SameFront(d, d1, 12, 4, 8);
    SameFront(d, d1, 12, 8, 12);
    BackKept(d1, d2, 0, 4, 8);
    BackKept(d1, d2, 0, 8, 12);
    BackKept(d1, d2, 0, 12, 16);
    SameFront(d2, e, 4, 0, 4);
    BackKept(d2, e, 4, 8, 12);
    BackKept(d2, e, 4, 12, 16);
    assert c[..4] == c[0..4] && e[..4] == e[0..4];
    SameBack(e, d, 16, HEADER_SIZE + 4 * count, |c|);
    forall k | 0 <= k < count ensures SlotSwapped(c, e, k) {
      assert SlotSwapped(c, d, k);
      SlotKept(c, d, e, k);
    }
  }

  /** The header and the offsets of the first `i` elements in host order, and those elements in the payload. */
  ghost predicate Progress(es: seq<Obj>, i: nat, c: bytes)
    requires i <= |es|
  {
    && |c| == PayloadStart(|es|) + Offset(es, i)
    && c[..4] == Field(CLSID_OBJVEC, false) && c[8..12] == [1, 0, 0, 0]
    && (forall k :: 0 <= k < i ==> SlotIs(es, c, k))
    && forall k :: 0 <= k < i ==> ElemAt(es[k], c, PayloadStart(|es|) + Offset(es, k))
  }

  predicate SlotIs(es: seq<Obj>, c: bytes, k: nat)
    requires k <= |es|
  {
    20 + 4 * k <= |c| && c[16 + 4 * k..20 + 4 * k] == Field(Offset(es, k), false)
  }

  /** What one round of the loop leaves: the offset in its slot, and the element, padded, at the end. */
  ghost predicate ElemAdded(o: Obj, slot: nat, pos: nat, c: bytes, d: bytes) {
    && HEADER_SIZE <= slot && slot + 4 <= |c| && |d| == |c| + AlignDword(Len(o))
    && d[..slot] == c[..slot] && d[slot..slot + 4] == Field(pos, false) && d[slot + 4..|c|] == c[slot + 4..]
    && Encodes(o, d[|c|..|c| + Len(o)])
  }

  lemma ProgressStep(es: seq<Obj>, i: nat, c: bytes, d: bytes)
    requires i < |es| && Progress(es, i, c) && ElemAdded(es[i], HEADER_SIZE + 4 * i, Offset(es, i), c, d)
    ensures Progress(es, i + 1, d) && |d| == PayloadStart(|es|) + Offset(es, i + 1)
  {
    hide Encodes, Len, Offset, Field;
    var slot := HEADER_SIZE + 4 * i;
    SameFront(c, d, slot, 0, 4);
    SameFront(c, d, slot, 8, 12);
    assert c[..4] == c[0..4] && d[..4] == d[0..4];
    OffsetGrows(es, i);
    forall k | 0 <= k < i + 1 ensures SlotIs(es, d, k) {
      if k < i {
        assert SlotIs(es, c, k);
        SameFront(c, d, slot, 16 + 4 * k, 20 + 4 * k);
      }
    }
    forall k | 0 <= k < i + 1 ensures ElemAt(es[k], d, PayloadStart(|es|) + Offset(es, k)) {
      if k < i {
        OffsetBefore(es, k, i);
        ElemKept(es[k], PayloadStart(|es|) + Offset(es, k), slot, c, d);
      }
    }
  }

  lemma SameBetween(c: bytes, d: bytes, m: nat, a: nat, b: nat)
    requires m <= a <= b <= |c| <= |d| && d[m..|c|] == c[m..]
    ensures d[a..b] == c[a..b]
  {
    assert c[m..|c|] == c[m..];
    SliceInSlice(c, m, |c|, a - m, b - m);
    SliceInSlice(d, m, |c|, a - m, b - m);
  }

  lemma ElemKept(o: Obj, at: nat, slot: nat, c: bytes, d: bytes)
    requires ElemAt(o, c, at) && slot + 4 <= at
    requires |c| <= |d| && slot + 4 <= |c| && d[slot + 4..|c|] == c[slot + 4..]
    ensures ElemAt(o, d, at)
  {
    hide Encodes, Len;
    SameBetween(c, d, slot + 4, at, at + Len(o));
  }

  /** The last offset and the header in network order turn what the loop wrote into an encoding. */
  lemma VectorDone(es: seq<Obj>, c: bytes, d: bytes, e: bytes)
    requires Progress(es, |es|, c)
    requires HeaderFilled(es, c, d) && Converted(|es| + 1, d, e)
    ensures VectorEncodes(es, e)
  {
    hide Encodes, Len, Offset, Field;
    var start := PayloadStart(|es|);
    forall i | 0 <= i <= |es| ensures e[16 + 4 * i..20 + 4 * i] == Field(Offset(es, i), Swapped(es)) {
      assert SlotIs(es, d, i);
      if Swapped(es) {
        assert SlotSwapped(d, e, i);
        FieldConverted(Offset(es, i));
      }
    }
    forall i | 0 <= i < |es| ensures ElemAt(es[i], e, start + Offset(es, i)) {
      ElemMoved(es[i], start + Offset(es, i), start, d, e);
    }
    FieldConverted(CLSID_OBJVEC);
    FieldConverted(|d| - BASE_SIZE);
    FieldConverted(|es| + 1);
  }

  /** After the loop: the end of the payload, its size and the number of offsets are filled in. */
  ghost predicate HeaderFilled(es: seq<Obj>, c: bytes, d: bytes) {
    && |d| == |c| == PayloadStart(|es|) + Offset(es, |es|)
    && d[..4] == Field(CLSID_OBJVEC, false) && d[4..8] == Field(|d| - BASE_SIZE, false)
    && d[8..12] == [1, 0, 0, 0] && d[12..16] == Field(|es| + 1, false)
    && (forall k :: 0 <= k <= |es| ==> SlotIs(es, d, k))
    && forall k :: 0 <= k < |es| ==> ElemAt(es[k], d, PayloadStart(|es|) + Offset(es, k))
  }

  lemma FieldConverted(n: nat)
    ensures Reversed(Field(n, false)) == Field(n, true)
  {
    hide BE;
  }

  lemma ElemMoved(o: Obj, at: nat, start: nat, c: bytes, d: bytes)
    requires ElemAt(o, c, at) && start <= at && |c| == |d| && start <= |c| && c[start..] == d[start..]
    ensures ElemAt(o, d, at)
  {
    hide Encodes, Len;
    SameBack(c, d, start, at, at + Len(o));
  }

  /** The slot that comes next is filled before the element is written. */
  lemma ElemWritten(o: Obj, slot: nat, pos: nat, c: bytes, c1: bytes, elem: bytes, pad: bytes)
    requires HEADER_SIZE <= slot && FieldPut(c, c1, slot, Field(pos, false))
    requires Encodes(o, elem) && |elem| + |pad| == AlignDword(Len(o))
    ensures ElemAdded(o, slot, pos, c, c1 + elem + pad)
  {
    hide Encodes, Field;
    EncodesLen(o, elem);
    var d := c1 + elem + pad;
    assert d[|c|..|c| + |elem|] == elem;
    assert d[..slot] == c1[..slot];
    assert d[slot..slot + 4] == c1[slot..slot + 4];
    assert d[slot + 4..|c|] == c1[slot + 4..];
  }

  lemma HostHeader(c: bytes, es: seq<Obj>)
    requires |c| == PayloadStart(|es|)
    ensures Progress(es, 0, Splice(c, 0, Field(CLSID_OBJVEC, false) + Field(0, false) + [1, 0, 0, 0] + Field(0, false)))
  {
    hide Field, Splice;
    var h := Field(CLSID_OBJVEC, false) + Field(0, false) + [1, 0, 0, 0] + Field(0, false);
    assert h[0..4] == Field(CLSID_OBJVEC, false) && h[8..12] == [1, 0, 0, 0];
    SpliceInside(c, 0, h, 0, 4);
    SpliceInside(c, 0, h, 8, 12);
    var d := Splice(c, 0, h);
    assert d[..4] == d[0..4];
  }

  /** The three fields written after the loop. */
  lemma HeaderFilledIn(es: seq<Obj>, c: bytes, c1: bytes, c2: bytes, d: bytes)
    requires Progress(es, |es|, c)
    requires FieldPut(c, c1, HEADER_SIZE + 4 * |es|, Field(Offset(es, |es|), false))
    requires FieldPut(c1, c2, 4, Field(|c| - BASE_SIZE, false))
    requires FieldPut(c2, d, 12, Field(|es| + 1, false))
    ensures HeaderFilled(es, c, d)
  {
    hide Encodes, Len, Offset, Field, FieldPut, SlotIs, ElemAt;
    var last := HEADER_SIZE + 4 * |es|;
    FieldsFilledIn(c, c1, c2, d, last, Field(Offset(es, |es|), false), Field(|c| - BASE_SIZE, false),
                   Field(|es| + 1, false));
    forall k | 0 <= k <= |es| ensures SlotIs(es, d, k) {
      assert k < |es| ==> SlotIs(es, c, k);
      SlotFilledIn(es, k, c, c1, c2, d);
    }
    var start := PayloadStart(|es|);
    forall k | 0 <= k < |es| ensures ElemAt(es[k], d, start + Offset(es, k)) {
      ElemMoved(es[k], start + Offset(es, k), start, c, d);
    }
  }

  lemma FieldsFilledIn(c: bytes, c1: bytes, c2: bytes, d: bytes, last: nat, pos: bytes, size: bytes, count: bytes)
    requires last >= HEADER_SIZE
    requires FieldPut(c, c1, last, pos) && FieldPut(c1, c2, 4, size) && FieldPut(c2, d, 12, count)
    ensures |d| == |c| && d[..4] == c[..4] && d[4..8] == size && d[8..12] == c[8..12] && d[12..16] == count
    ensures d[last + 4..] == c[last + 4..]
  {
    SameFront(c, c1, last, 0, 4);
    SameFront(c, c1, last, 8, 12);
    SameFront(c1, c2, 4, 0, 4);
    BackKept(c1, c2, 4, 8, 12);
    SameFront(c2, d, 12, 0, 4);
    SameFront(c2, d, 12, 4, 8);
    SameFront(c2, d, 12, 8, 12);
    assert d[..4] == d[0..4] && c[..4] == c[0..4];
    BackKept(c1, c2, 4, last + 4, |c|);
    BackKept(c2, d, 12, last + 4, |c|);
  }

  lemma SlotFilledIn(es: seq<Obj>, k: nat, c: bytes, c1: bytes, c2: bytes, d: bytes)
    requires k <= |es| && (k < |es| ==> SlotIs(es, c, k)) && |c| >= PayloadStart(|es|)
    requires FieldPut(c, c1, HEADER_SIZE + 4 * |es|, Field(Offset(es, |es|), false))
    requires FieldPut(c1, c2, 4, Field(|c| - BASE_SIZE, false))
    requires FieldPut(c2, d, 12, Field(|es| + 1, false))
    ensures SlotIs(es, d, k)
  {
    hide Offset, Field, FieldPut, SlotIs;
    var a, last := HEADER_SIZE + 4 * k, HEADER_SIZE + 4 * |es|;
    var pos := Field(Offset(es, |es|), false);
    assert if k < |es| then a + 4 <= last else a == last;
    RangeFilledIn(c, c1, c2, d, last, a, pos, Field(|c| - BASE_SIZE, false), Field(|es| + 1, false));
    SlotFromRange(es, k, c, d, a, pos);
  }

  lemma SlotFromRange(es: seq<Obj>, k: nat, c: bytes, d: bytes, a: nat, pos: bytes)
    requires k <= |es| && a == HEADER_SIZE + 4 * k && (k < |es| ==> SlotIs(es, c, k))
    requires pos == Field(Offset(es, |es|), false)
    requires a + 4 <= |d| == |c| && d[a..a + 4] == if k < |es| then c[a..a + 4] else pos
    ensures SlotIs(es, d, k)
  {
    hide Offset, Field;
  }

  lemma RangeFilledIn(c: bytes, c1: bytes, c2: bytes, d: bytes, last: nat, a: nat,
                      pos: bytes, size: bytes, count: bytes)
    requires HEADER_SIZE <= a && (a + 4 <= last || a == last)
    requires FieldPut(c, c1, last, pos) && FieldPut(c1, c2, 4, size) && FieldPut(c2, d, 12, count)
    ensures a + 4 <= |d| == |c| && d[a..a + 4] == if a < last then c[a..a + 4] else pos
  {
    if a < last {
      SameFront(c, c1, last, a, a + 4);
    }
    BackKept(c1, c2, 4, a, a + 4);
    BackKept(c2, d, 12, a, a + 4);
  }

  lemma VectorLen(es: seq<Obj>)
    ensures Len(Vector(es)) == PayloadStart(|es|) + Offset(es, |es|)
  {
    hide Offset;
  }

  ghost predicate NullFreeBefore(es: seq<Obj>, i: nat)
    requires i <= |es|
  {
    forall k :: 0 <= k < i ==> NullFree(es[k])
  }

  lemma NullFreeParts(es: seq<Obj>, i: nat)
    requires i <= |es|
    ensures i == 0 ==> NullFreeBefore(es, i)
    ensures i < |es| ==> (NullFreeBefore(es, i + 1) <==> NullFreeBefore(es, i) && NullFree(es[i]))
    ensures i < |es| && NullFree(Vector(es)) ==> NullFree(es[i])
    ensures i == |es| ==> (NullFree(Vector(es)) <==> NullFreeBefore(es, i))
  {
  }

  lemma RoomForElem(es: seq<Obj>, i: nat, page: nat)
    requires Shaped(Vector(es)) && Fits(Vector(es), page) && i < |es|
    ensures Shaped(es[i]) && Fits(es[i], page)
    ensures PayloadStart(|es|) + Offset(es, i) + AlignDword(Len(es[i])) <= MAX_BYTES_PER_BUFFER
    ensures Offset(es, i + 1) == Offset(es, i) + AlignDword(Len(es[i]))
  {
    hide Offset;
    VectorLen(es);
    OffsetGrows(es, i);
  }

  // ---- Objects that are sent and do not come back ----

  const LARGEST_PAGE: nat := 1024 * 1024

  ghost predicate Sendable(o: Obj, page: nat) {
    Shaped(o) && NullFree(o) && Fits(o, page)
  }

  function EmptyProps(n: nat): seq<Prop> {
    seq(n, i requires 0 <= i < n => Prop(i, Empty))
  }

  lemma {:induction false} EmptyPropsLen(n: nat, i: nat)
    requires i <= n
    ensures PropOffset(EmptyProps(n), i) == 28 * i && Estimate(EmptyProps(n), i) == 8 * i
  {
    if i > 0 {
      EmptyPropsLen(n, i - 1);
      assert EmptyProps(n)[i - 1] == Prop(i - 1, Empty);
      assert PropLen(Prop(i - 1, Empty)) == 28;
    }
  }

  /** A map of properties without a value: it is written whatever their number, and read up to the limit. */
  lemma ManyProps(n: nat, page: nat)
    requires n <= 0x1_0000 && MIN_PAGE <= page <= LARGEST_PAGE
    ensures Sendable(Config(EmptyProps(n)), page)
    ensures Friendly(Config(EmptyProps(n))) <==> n <= CFGDB_MAX_ITEM
  {
    hide PropOffset, Estimate, Cap, PropLen;
    var ps := EmptyProps(n);
    EmptyPropsLen(n, n);
    forall i | 0 <= i < n
      ensures ps[i] == Prop(i, Empty) && PropShaped(ps[i])
    {
      EmptyPropIs(i, page);
    }
    EmptyPropIs(0, page);
    CapBounded(ps, n, page, 20);
    assert Len(Config(ps)) <= MAX_BYTES_PER_BUFFER && Cap(ps, n, page) <= MAX_BYTES_PER_BUFFER;
    assert PropsShaped(ps);
    assert Fits(Config(ps), page) && NullFree(Config(ps));
  }

  lemma EmptyPropIs(key: nat, page: nat)
    requires key < UINT32_LIMIT
    ensures PropShaped(Prop(key, Empty)) && BufNullFree(Empty) && BufFits(Empty, page) && BufFriendly(Empty)
  {
  }

  function EmptyMaps(n: nat): seq<Obj> {
    seq(n, _ => Config([]))
  }

  lemma {:induction false} EmptyMapsLen(n: nat, i: nat)
    requires i <= n
    ensures Offset(EmptyMaps(n), i) == HEADER_SIZE * i
  {
    if i > 0 {
      EmptyMapsLen(n, i - 1);
      assert EmptyMaps(n)[i - 1] == Config([]) && Len(Config([])) == HEADER_SIZE;
    }
  }

  /** A vector of empty maps: the table has one offset more than there are elements. */
  lemma ManyElems(n: nat, page: nat)
    requires n <= 0x1_0000 && MIN_PAGE <= page <= LARGEST_PAGE
    ensures Sendable(Vector(EmptyMaps(n)), page)
    ensures Friendly(Vector(EmptyMaps(n))) <==> n < MAX_ELEM_CONTAINER
  {
    hide Offset, PropOffset, Estimate;
    var es := EmptyMaps(n);
    EmptyMapsLen(n, n);
    EmptyMapIs(page);
    assert forall i :: 0 <= i < n ==> es[i] == Config([]);
    assert Len(Vector(es)) <= MAX_BYTES_PER_BUFFER;
    assert ElemsShaped(es) && NullFree(Vector(es)) && Fits(Vector(es), page);
  }

  lemma EmptyMapIs(page: nat)
    requires MIN_PAGE <= page <= LARGEST_PAGE
    ensures Sendable(Config([]), page) && ElemFriendly(Config([]))
  {
  }

  /** One property too many, one element too many, and text without a final zero. */
  lemma UnfriendlySamples(page: nat)
    requires MIN_PAGE <= page <= LARGEST_PAGE
    ensures var map_, vector := Config(EmptyProps(1025)), Vector(EmptyMaps(10000));
            && Sendable(map_, page) && !Friendly(map_)
            && Sendable(vector, page) && !Friendly(vector)
    ensures var text := Boxed(Mem(String, [65]));
            Sendable(text, page) && !Friendly(text)
  {
    hide PropOffset, Offset, Estimate, Cap, EmptyProps, EmptyMaps, Sendable, Friendly;
    ManyProps(CFGDB_MAX_ITEM + 1, page);
    ManyElems(MAX_ELEM_CONTAINER, page);
    TextSample(page);
  }

  lemma TextSample(page: nat)
    ensures var text := Boxed(Mem(String, [65]));
            Sendable(text, page) && !Friendly(text)
  {
  }

  // ---- Deserializers ----

  /** One round of the reader's loop over any memory. */
  lemma ElemsRound(mem: bytes, size: nat, n: nat, i: nat, acc: seq<Obj>)
    requires i < n && PayloadStart(n) <= |mem|
    ensures var pos, next := H32(mem, 16 + 4 * i), H32(mem, 20 + 4 * i);
            var at, r := PayloadStart(n) + pos, ReadElems(mem, size, n, i, acc);
            if at >= SignedSize(size) then r == ElemsRead(E_NOMEM, acc, mem)
            else if at + 4 > |mem| then r == ElemsRead(E_FAULT, acc, mem)
            else
              var d := DecodeElem(U32(mem, at), mem[at..], (next - pos) % UINT32_LIMIT);
              if d.res.Err? then r == ElemsRead(d.res.code, acc, mem[..at] + d.mem)
              else r == ReadElems(mem[..at] + d.mem, size, n, i + 1, acc + [d.res.val])
  {
    hide DecodeElem, U32, H32;
  }

  lemma ElemsOver(mem: bytes, size: nat, n: nat, acc: seq<Obj>)
    requires PayloadStart(n) <= |mem|
    ensures ReadElems(mem, size, n, n, acc) == ElemsRead(0, acc, mem)
  {
    hide DecodeElem, U32, H32;
  }

  /** The memory of a vector while ntoh works on it: converted up to `at`, and as it came from there on. */
  predicate HalfConverted(m: bytes, v: bytes, at: nat)
    requires |m| >= HEADER_SIZE
  {
    at <= |v| == |m| && v[..at] == Ntoh(m)[..at] && v[at..] == m[at..]
  }

  lemma Quarters(s: bytes)
    requires |s| >= 16
    ensures s[..16] == s[0..4] + s[4..8] + s[8..12] + s[12..16]
  {
    assert s[0..8] == s[0..4] + s[4..8] && s[8..16] == s[8..12] + s[12..16];
    assert s[..16] == s[0..8] + s[8..16];
  }

  /** The three fields of the header. */
  lemma NtohFront(m: bytes, v1: bytes, v2: bytes, v: bytes)
    requires |m| >= HEADER_SIZE && FieldPut(m, v1, 0, Reversed(m[0..4]))
    requires FieldPut(v1, v2, 4, Reversed(v1[4..8])) && FieldPut(v2, v, 12, Reversed(v2[12..16]))
    ensures HalfConverted(m, v, 16) && H32(v, 12) == U32(m, 12)
  {
    hide Reversed, Ntoh, FromBE, TableSize;
    var h := Ntoh(m);
    NtohHeader(m);
    BackKept(m, v1, 0, 4, 8);
    BackKept(m, v1, 0, 8, |m|);
    BackKept(v1, v2, 4, 8, |m|);
    SameBack(v2, m, 8, 8, 12);
    SameBack(v2, m, 8, 12, 16);
    SameBack(v2, m, 8, 16, |m|);
    SameFront(v1, v2, 4, 0, 4);
    SameFront(v2, v, 12, 0, 4);
    SameFront(v2, v, 12, 4, 8);
    SameFront(v2, v, 12, 8, 12);
    BackKept(v2, v, 12, 16, |m|);
    HostField(m, v, 12);
    assert m[0..4] == m[..4] && h[0..4] == h[..4];
    Quarters(v);
    Quarters(h);
  }

  /** One more offset. */
  lemma NtohStep(m: bytes, v: bytes, w: bytes, i: nat)
    requires |m| >= HEADER_SIZE && 4 * i + 4 <= TableSize(m) && HalfConverted(m, v, 16 + 4 * i)
    requires FieldPut(v, w, 16 + 4 * i, Reversed(v[16 + 4 * i..16 + 4 * i + 4]))
    ensures HalfConverted(m, w, 20 + 4 * i)
  {
    hide Reversed, Ntoh, TableSize;
    var at, h := 16 + 4 * i, Ntoh(m);
    NtohSlot(m, i);
    SameBack(v, m, at, at, at + 4);
    SameBack(v, m, at, at + 4, |m|);
    BackKept(v, w, at, at + 4, |m|);
    assert w[..at + 4] == w[..at] + w[at..at + 4];
    assert h[..at + 4] == h[..at] + h[at..at + 4];
  }

  lemma NtohEnd(m: bytes, v: bytes, at: nat)
    requires |m| >= HEADER_SIZE && at == HEADER_SIZE + TableSize(m) && HalfConverted(m, v, at)
    ensures v == Ntoh(m)
  {
    hide Ntoh, TableSize;
    NtohHeader(m);
    assert v == v[..at] + v[at..] && Ntoh(m) == Ntoh(m)[..at] + Ntoh(m)[at..];
  }

  /** A conversion of four bytes inside a larger memory is one inside the part that holds them. */
  lemma FieldPutIn(c: bytes, field: bytes, at: nat, lo: nat, hi: nat)
    requires lo <= lo + at + 4 <= hi <= |c| && |field| == 4
    ensures var d := Splice(c, lo + at, field);
            d[..lo] == c[..lo] && d[hi..] == c[hi..] && FieldPut(c[lo..hi], d[lo..hi], at, field)
  {
    SpliceSlice(c, lo + at, field, lo, hi);
  }

  lemma {:induction false} ReadNumsAppend(s: bytes, w: nat, n: nat)
    requires w > 0 && w * (n + 1) <= |s|
    ensures w * n <= w * n + w <= |s|
    ensures ReadNums(s, w, n + 1) == ReadNums(s, w, n) + [FromBE(s[w * n..w * n + w])]
    decreases n
  {
    hide FromBE;
    assert w * (n + 1) == w * n + w;
    if n > 0 {
      assert w * n == w * (n - 1) + w;
      ReadNumsAppend(s[w..], w, n - 1);
      assert s[w..][w * (n - 1)..w * (n - 1) + w] == s[w * n..w * n + w];
    }
  }
}
