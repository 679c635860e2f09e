/**
 The serializer and deserializer over the buffer. Writers append at the end of the storage and go
 back to fill in byte counts; readers only move the offset.
 */
module RidlSerializer {
  import opened Bytes
  import opened Buffers
  import opened Ridl

  /** The offset stands at the end of the storage, ready to append. */
  ghost predicate AtEnd(buf: Buffer)
    reads buf, buf.Repr
  {
    buf.Valid() && buf.off == buf.tail == buf.size
  }

  /** The APPEND macro: the window is opened to the front, the block appended, the offset put back. */
  method AppendBlock(buf: Buffer, block: bytes)
    requires AtEnd(buf) && |block| > 0 && buf.size + |block| <= MAX_BYTES_PER_BUFFER
    modifies buf.Repr
    ensures AtEnd(buf) && fresh(buf.Repr - old(buf.Repr))
    ensures buf.whole == old(buf.whole) + block
  {
    hide Buffer.Valid;
    var offset := buf.off;
    var _ := buf.SetOffset(0);
    var _ := buf.Append(block);
    var _ := buf.SetOffset(offset + |block|);
  }

  method SerializeNum(buf: Buffer, n: nat, w: nat) returns (ret: int)
    requires AtEnd(buf) && w > 0 && buf.size + w <= MAX_BYTES_PER_BUFFER
    modifies buf.Repr
    ensures AtEnd(buf) && fresh(buf.Repr - old(buf.Repr))
    ensures ret == 0 && buf.whole == old(buf.whole) + BE(n, w)
  {
    hide Buffer.Valid;
    AppendBlock(buf, BE(n, w));
    return 0;
  }

  /** After a call: the status and the bytes that `Write` describes, appended to what was there. */
  ghost predicate Appended(buf: Buffer, was: bytes, ret: int, w: Written)
    reads buf, buf.Repr
  {
    AtEnd(buf) && ret == w.ret && buf.whole == was + w.out
  }

  method SerializeAtom(buf: Buffer, a: Atom, k: Kind) returns (ret: int)
    requires AtEnd(buf) && AtomTyped(k, a)
    requires buf.size + |WriteAtom(a, k).out| <= MAX_BYTES_PER_BUFFER
    modifies buf.Repr
    ensures fresh(buf.Repr - old(buf.Repr))
    ensures Appended(buf, old(buf.whole), ret, WriteAtom(a, k))
  {
    hide Buffer.Valid;
    if IsNumeric(k) {
      ret := SerializeNum(buf, a.n, Width(k));
    } else {
      var n := |a.s| % UINT32_LIMIT;
      if n >= MAX_BYTES_PER_BUFFER {
        return E_RANGE;
      }
      ghost var was := buf.whole;
      ret := SerializeNum(buf, n, 4);
      if n > 0 {
        AppendBlock(buf, a.s[..n]);
      }
      assert buf.whole == was + (BE(n, 4) + a.s[..n]);
    }
  }

  /** The two counts in front of a container; the byte count is still zero. */
  method WriteHeader(buf: Buffer, count: nat, ghost body: Written) returns (ret: int, bytesOff: nat, hdrSize: nat)
    requires AtEnd(buf) && buf.size + |WriteContainer(count, body).out| <= MAX_BYTES_PER_BUFFER
    modifies buf.Repr
    ensures AtEnd(buf) && fresh(buf.Repr - old(buf.Repr))
    ensures ret < 0 || count == 0 ==> Appended(buf, old(buf.whole), ret, WriteContainer(count, body))
    ensures ret >= 0 && count > 0 ==>
              && ret == 0 && count < MAX_ELEM_COUNT && bytesOff == old(buf.size) && hdrSize == HDR_SIZE
              && buf.whole == old(buf.whole) + BE(0, 4) + BE(count, 4)
  {
    hide Buffer.Valid;
    bytesOff, hdrSize := buf.off, HDR_SIZE;
    ret := SerializeNum(buf, 0, 4);
    if count == 0 {
      ret := SerializeNum(buf, 0, 4);
      return;
    }
    if count >= MAX_ELEM_COUNT {
      ret := E_RANGE;
      return;
    }
    ret := SerializeNum(buf, count, 4);
    hdrSize := buf.off - bytesOff;
  }

  lemma PatchedBytes(start: bytes, old4: bytes, new4: bytes, count4: bytes, body: bytes)
    requires |old4| == |new4|
    ensures Splice(start + old4 + count4 + body, |start|, new4) == start + (new4 + count4 + body)
    ensures start + old4 + count4 + body == start + (old4 + count4 + body)
  {
  }

  /** Going back: only the four bytes of the byte count change, and only after a clean loop. */
  method PatchByteCount(buf: Buffer, bytesOff: nat, hdrSize: nat, inner: int, count: nat,
                        ghost start: bytes, ghost body: Written)
    returns (ret: int)
    requires AtEnd(buf) && bytesOff == |start| && hdrSize == HDR_SIZE
    requires 0 < count < MAX_ELEM_COUNT && inner == body.ret
    requires buf.whole == start + BE(0, 4) + BE(count, 4) + body.out
    modifies buf.data, buf`whole
    ensures Appended(buf, start, ret, WriteContainer(count, body))
  {
    hide Buffer.Valid, BE;
    PatchedBytes(start, BE(0, 4), BE(|body.out|, 4), BE(count, 4), body.out);
    if inner >= 0 {
      var size := buf.off - bytesOff - hdrSize;
      buf.PokeBase(bytesOff, BE(size, 4));
    }
    return 0;
  }

  method SerialElem(buf: Buffer, t: Type, v: Value, sig: string) returns (ret: int)
    requires AtEnd(buf) && Typed(t, v)
    requires buf.size + |Write(t, v, sig).out| <= MAX_BYTES_PER_BUFFER
    modifies buf.Repr
    ensures fresh(buf.Repr - old(buf.Repr))
    ensures Appended(buf, old(buf.whole), ret, Write(t, v, sig))
    decreases v, 2
  {
    hide Buffer.Valid;
    match t
    case Scalar(k) => ret := SerializeAtom(buf, v.atom, k);
    case Array(elem) => ret := SerializeArray(buf, elem, v.elems, sig);
    case Map(k, elem) => ret := SerializeMap(buf, k, elem, v.entries, sig);
  }

  method SerializeArray(buf: Buffer, t: Type, es: seq<Value>, sig: string) returns (ret: int)
    requires AtEnd(buf) && Typed(Array(t), List(es))
    requires buf.size + |Write(Array(t), List(es), sig).out| <= MAX_BYTES_PER_BUFFER
    modifies buf.Repr
    ensures fresh(buf.Repr - old(buf.Repr))
    ensures Appended(buf, old(buf.whole), ret, Write(Array(t), List(es), sig))
    decreases es, 1
  {
    hide Buffer.Valid;
    if !Bracketed(sig, '(', ')') {
      return E_INVAL;
    }
    ghost var start, body := buf.whole, WriteElems(t, es, Strip(sig));
    var bytesOff, hdrSize;
    ret, bytesOff, hdrSize := WriteHeader(buf, |es|, body);
    if ret < 0 || |es| == 0 {
      return;
    }
    var inner := SerialElems(buf, t, es, Strip(sig));
    ret := PatchByteCount(buf, bytesOff, hdrSize, inner, |es|, start, body);
  }

  /** One call after another until the first error. */
  ghost function Join(ws: seq<Written>): Written {
    if ws == [] then Written(0, [])
    else if ws[0].ret < 0 then ws[0]
    else
      var rest := Join(ws[1..]);
      Written(rest.ret, ws[0].out + rest.out)
  }

  /** `start` and what the first `n` calls append to it when none of them fails. */
  ghost function Grown(start: bytes, ws: seq<Written>, n: nat): bytes
    requires n <= |ws|
  {
    if n == 0 then start else Grown(start, ws, n - 1) + ws[n - 1].out
  }

  /** The calls up to the first error, or all of them, append what `Join` says. */
  lemma {:induction false} JoinIsGrown(start: bytes, ws: seq<Written>, n: nat)
    requires n <= |ws| && forall i :: 0 <= i < n ==> ws[i].ret >= 0
    ensures n == |ws| ==> Join(ws).ret == 0 && Grown(start, ws, n) == start + Join(ws).out
    ensures n < |ws| && ws[n].ret < 0 ==>
              Join(ws).ret == ws[n].ret && Grown(start, ws, n + 1) == start + Join(ws).out
    ensures |Grown(start, ws, n)| + (if n < |ws| then |ws[n].out| else 0) <= |start| + |Join(ws).out|
    decreases |ws|
  {
    if n > 0 {
      JoinIsGrown(start + ws[0].out, ws[1..], n - 1);
      GrownTail(start, ws, n);
      if n < |ws| {
        GrownTail(start, ws, n + 1);
      }
    }
  }

  lemma {:induction false} GrownTail(start: bytes, ws: seq<Written>, n: nat)
    requires 0 < n <= |ws|
    ensures Grown(start, ws, n) == Grown(start + ws[0].out, ws[1..], n - 1)
  {
    if n > 1 {
      GrownTail(start, ws, n - 1);
    }
  }

  ghost function ElemWrites(t: Type, es: seq<Value>, sig: string): (ws: seq<Written>)
    requires forall e <- es :: Typed(t, e)
    ensures |ws| == |es| && forall i :: 0 <= i < |es| ==> ws[i] == Write(t, es[i], sig)
    ensures Join(ws) == WriteElems(t, es, sig)
  {
    if es == [] then []
    else
      var rest := ElemWrites(t, es[1..], sig);
      assert ([Write(t, es[0], sig)] + rest)[1..] == rest;
      [Write(t, es[0], sig)] + rest
  }

  ghost function EntryWrites(k: Kind, t: Type, es: seq<Entry>, sig: string): (ws: seq<Written>)
    requires forall e <- es :: EntryTyped(k, t, e)
    ensures |ws| == |es| && forall i :: 0 <= i < |es| ==> ws[i] == WriteEntry(k, t, es[i], sig)
    ensures Join(ws) == WriteEntries(k, t, es, sig)
  {
    if es == [] then []
    else
      var rest := EntryWrites(k, t, es[1..], sig);
      assert ([WriteEntry(k, t, es[0], sig)] + rest)[1..] == rest;
      [WriteEntry(k, t, es[0], sig)] + rest
  }

  /** The loop over the elements; it stops at the first error. */
  method SerialElems(buf: Buffer, t: Type, es: seq<Value>, sig: string) returns (inner: int)
    requires AtEnd(buf) && forall e <- es :: Typed(t, e)
    requires buf.size + |WriteElems(t, es, sig).out| <= MAX_BYTES_PER_BUFFER
    modifies buf.Repr
    ensures fresh(buf.Repr - old(buf.Repr))
    ensures Appended(buf, old(buf.whole), inner, WriteElems(t, es, sig))
    decreases es, 0
  {
    hide Buffer.Valid, WriteElems, WriteEntries, WriteEntry, Write, Join, Typed, EntryTyped;
    ghost var ws := ElemWrites(t, es, sig);
    ghost var start := buf.whole;
    inner := 0;
    var i := 0;
    while i < |es|
      invariant 0 <= i <= |es| && inner == 0
      invariant AtEnd(buf) && fresh(buf.Repr - old(buf.Repr))
      invariant forall j :: 0 <= j < i ==> ws[j].ret >= 0
      invariant buf.whole == Grown(start, ws, i)
    {
      JoinIsGrown(start, ws, i);
      assert ws[i] == Write(t, es[i], sig);
      inner := SerialElem(buf, t, es[i], sig);
      assert buf.whole == Grown(start, ws, i + 1);
      if inner < 0 {
        return;
      }
      i := i + 1;
    }
    JoinIsGrown(start, ws, i);
  }

  method SerializeMap(buf: Buffer, k: KeyKind, t: Type, es: seq<Entry>, sig: string) returns (ret: int)
    requires AtEnd(buf) && Typed(Map(k, t), Dict(es))
    requires buf.size + |Write(Map(k, t), Dict(es), sig).out| <= MAX_BYTES_PER_BUFFER
    modifies buf.Repr
    ensures fresh(buf.Repr - old(buf.Repr))
    ensures Appended(buf, old(buf.whole), ret, Write(Map(k, t), Dict(es), sig))
    decreases es, 1
  {
    hide Buffer.Valid;
    if !Bracketed(sig, '[', ']') {
      return E_INVAL;
    }
    if |sig| == 2 {
      return E_FAULT;
    }
    ghost var start, body := buf.whole, WriteEntries(k, t, es, Strip(sig)[1..]);
    var bytesOff, hdrSize;
    ret, bytesOff, hdrSize := WriteHeader(buf, |es|, body);
    if ret < 0 || |es| == 0 {
      return;
    }
    var inner := SerialEntries(buf, k, t, es, Strip(sig)[1..]);
    ret := PatchByteCount(buf, bytesOff, hdrSize, inner, |es|, start, body);
  }

  /** The loop over the entries, key then value; it stops at the first error. */
  method SerialEntries(buf: Buffer, k: Kind, t: Type, es: seq<Entry>, sig: string) returns (inner: int)
    requires AtEnd(buf) && forall e <- es :: EntryTyped(k, t, e)
    requires buf.size + |WriteEntries(k, t, es, sig).out| <= MAX_BYTES_PER_BUFFER
    modifies buf.Repr
    ensures fresh(buf.Repr - old(buf.Repr))
    ensures Appended(buf, old(buf.whole), inner, WriteEntries(k, t, es, sig))
    decreases es, 0
  {
    hide Buffer.Valid, WriteElems, WriteEntries, WriteEntry, Write, Join, Typed, EntryTyped;
    ghost var ws := EntryWrites(k, t, es, sig);
    ghost var start := buf.whole;
    inner := 0;
    var i := 0;
    while i < |es|
      invariant 0 <= i <= |es| && inner == 0
      invariant AtEnd(buf) && fresh(buf.Repr - old(buf.Repr))
      invariant forall j :: 0 <= j < i ==> ws[j].ret >= 0
      invariant buf.whole == Grown(start, ws, i)
    {
      JoinIsGrown(start, ws, i);
      assert ws[i] == WriteEntry(k, t, es[i], sig);
      inner := SerialEntry(buf, k, t, es[i], sig);
      assert buf.whole == Grown(start, ws, i + 1);
      if inner < 0 {
        return;
      }
      i := i + 1;
    }
    JoinIsGrown(start, ws, i);
  }

  method SerialEntry(buf: Buffer, k: Kind, t: Type, e: Entry, sig: string) returns (inner: int)
    requires AtEnd(buf) && EntryTyped(k, t, e)
    requires buf.size + |WriteEntry(k, t, e, sig).out| <= MAX_BYTES_PER_BUFFER
    modifies buf.Repr
    ensures fresh(buf.Repr - old(buf.Repr))
    ensures Appended(buf, old(buf.whole), inner, WriteEntry(k, t, e, sig))
    decreases e, 0
  {
    hide Buffer.Valid;
    inner := SerializeAtom(buf, e.key, k);
    if inner < 0 {
      return;
    }
    inner := SerialElem(buf, t, e.val, sig);
  }

  // ---- Reading ----

  /** After a read: the window is what is left, and nothing but the offset has moved. */
  ghost predicate Consumed(buf: Buffer, rest: bytes)
    reads buf, buf.Repr
  {
    buf.Valid() && buf.Contents() == rest
  }

  method DeserialNum(buf: Buffer, w: nat) returns (ret: Status, n: nat)
    requires buf.Valid() && w > 0
    modifies buf`off
    ensures var r := ReadNum(w, old(buf.Contents())); Consumed(buf, r.rest) && ret == r.ret && n == r.val
  {
    if buf.tail - buf.off == 0 || buf.data == null {
      return E_INVAL, 0;
    }
    if buf.tail - buf.off < w {
      return E_RANGE, 0;
    }
    var block := buf.Take(w);
    return 0, FromBE(block);
  }

  method DeserialAtom(buf: Buffer, k: Kind) returns (ret: Status, a: Atom)
    requires buf.Valid()
    modifies buf`off
    ensures var r := ReadAtom(k, old(buf.Contents())); Consumed(buf, r.rest) && ret == r.ret && a == r.val
  {
    hide Buffer.Valid, ReadNum;
    var n;
    if IsNumeric(k) {
      ret, n := DeserialNum(buf, Width(k));
      return ret, Num(n);
    }
    a := Blob([]);
    ret, n := DeserialNum(buf, 4);
    if ret < 0 || n == 0 {
      return;
    }
    var size := buf.tail - buf.off;
    if k == Str {
      n := Min(n, size);
    } else if n > BUF_MAX_SIZE {
      return E_INVAL, a;
    } else if n > size {
      return E_FAULT, a;
    }
    var block := buf.Take(n);
    a := Blob(block);
  }

  method DeserialElem(buf: Buffer, t: Type, sig: string) returns (ret: Status, v: Value)
    requires buf.Valid()
    modifies buf`off
    ensures var r := Decode(t, sig, old(buf.Contents())); Consumed(buf, r.rest) && ret == r.ret && v == r.val
    decreases t, 0
  {
    hide Buffer.Valid;
    match t
    case Scalar(k) =>
      var a;
      ret, a := DeserialAtom(buf, k);
      v := Leaf(a);
    case Array(elem) =>
      ret, v := DeserialArray(buf, elem, sig);
    case Map(k, elem) =>
      ret, v := DeserialMap(buf, k, elem, sig);
  }

  /** The two counts of a container. */
  method DeserialHeader(buf: Buffer) returns (ret: Status, size: nat, count: nat)
    requires buf.Valid() && |buf.Contents()| >= HDR_SIZE
    modifies buf`off
    ensures var s := old(buf.Contents());
            && size == FromBE(s[..4])
            && ret == (if size > MAX_BYTES_PER_BUFFER then E_RANGE else 0)
            && (ret == 0 ==> count == FromBE(s[4..8]))
            && Consumed(buf, if ret < 0 then s[4..] else s[8..])
  {
    hide Buffer.Valid;
    ghost var s := buf.Contents();
    count := 0;
    ret, size := DeserialNum(buf, 4);
    if size > MAX_BYTES_PER_BUFFER {
      return E_RANGE, size, count;
    }
    ret, count := DeserialNum(buf, 4);
    assert s[4..][..4] == s[4..8] && s[4..][4..] == s[8..];
  }

  method DeserialArray(buf: Buffer, t: Type, sig: string) returns (ret: Status, v: Value)
    requires buf.Valid()
    modifies buf`off
    ensures var r := Decode(Array(t), sig, old(buf.Contents())); Consumed(buf, r.rest) && ret == r.ret && v == r.val
    decreases t, 2
  {
    hide Buffer.Valid;
    v := List([]);
    var avail := buf.tail - buf.off;
    if avail == 0 || avail < HDR_SIZE || !Bracketed(sig, '(', ')') {
      return E_INVAL, v;
    }
    var size, count;
    ret, size, count := DeserialHeader(buf);
    if ret < 0 || size == 0 || count == 0 || count >= MAX_ELEM_COUNT {
      return;
    }
    // an error among the elements and a wrong byte count stay in an inner status
    var es := DeserialElems(buf, t, Strip(sig), count);
    v := List(es);
  }

  /** The loop over the elements of a vector sized beforehand. */
  method DeserialElems(buf: Buffer, t: Type, sig: string, count: nat) returns (es: seq<Value>)
    requires buf.Valid()
    modifies buf`off
    ensures var r := DecodeElems(t, sig, old(buf.Contents()), count); Consumed(buf, r.rest) && es == r.val
    decreases t, 1
  {
    hide Buffer.Valid, Decode, DecodeElems, DecodeEntries;
    ghost var goal := DecodeElems(t, sig, buf.Contents(), count);
    es := Defaults(t, count);
    var i := 0;
    while i < count
      invariant 0 <= i <= count == |es| && buf.Valid()
      invariant es[i..] == Defaults(t, count - i)
      invariant goal.val == es[..i] + DecodeElems(t, sig, buf.Contents(), count - i).val
      invariant goal.rest == DecodeElems(t, sig, buf.Contents(), count - i).rest
    {
      ghost var s := buf.Contents();
      DecodeElemsStep(t, sig, s, count - i, es, i);
      var ret, v := DeserialElem(buf, t, sig);
      es := es[i := v];
      if ret < 0 {
        return;
      }
      i := i + 1;
    }
    DecodeNoElems(t, sig, buf.Contents());
  }

  lemma DecodeNoElems(t: Type, sig: string, s: bytes)
    ensures DecodeElems(t, sig, s, 0) == Read(0, [], s)
  {
  }

  /** One turn of the loop, on the values: the element read replaces the default in its place. */
  lemma OneFilled(es: seq<Value>, i: nat, v: Value, tail: seq<Value>)
    requires i < |es|
    ensures var es1 := es[i := v];
            && es1[i + 1..] == es[i + 1..] && es1 == es[..i] + ([v] + es[i + 1..])
            && es[..i] + ([v] + tail) == es1[..i + 1] + tail
  {
    assert es[i := v][..i + 1] == es[..i] + [v];
  }

  lemma DecodeElemsStep(t: Type, sig: string, s: bytes, n: nat, es: seq<Value>, i: nat)
    requires n > 0 && i + n == |es| && es[i..] == Defaults(t, n)
    ensures var first, all := Decode(t, sig, s), DecodeElems(t, sig, s, n);
            var es1 := es[i := first.val];
            && es1[i + 1..] == Defaults(t, n - 1)
            && if first.ret < 0 then es[..i] + all.val == es1 && all.rest == first.rest
               else
                 var later := DecodeElems(t, sig, first.rest, n - 1);
                 es[..i] + all.val == es1[..i + 1] + later.val && all.rest == later.rest
  {
    hide Decode;
    var first := Decode(t, sig, s);
    var later := DecodeElems(t, sig, first.rest, n - 1);
    assert es[i..][1..] == es[i + 1..];
    OneFilled(es, i, first.val, Defaults(t, n - 1));
    OneFilled(es, i, first.val, later.val);
  }

  method DeserialMap(buf: Buffer, k: KeyKind, t: Type, sig: string) returns (ret: Status, v: Value)
    requires buf.Valid()
    modifies buf`off
    ensures var r := Decode(Map(k, t), sig, old(buf.Contents())); Consumed(buf, r.rest) && ret == r.ret && v == r.val
    decreases t, 2
  {
    hide Buffer.Valid;
    v := Dict([]);
    var avail := buf.tail - buf.off;
    if avail == 0 || avail < HDR_SIZE || !Bracketed(sig, '[', ']') {
      return E_INVAL, v;
    }
    if |sig| == 2 {
      return E_FAULT, v;
    }
    var size, count;
    ret, size, count := DeserialHeader(buf);
    if ret < 0 || count == 0 {
      return;
    }
    if count >= MAX_ELEM_COUNT {
      return E_RANGE, v;
    }
    var start := buf.off;
    var es;
    ret, es := DeserialEntries(buf, k, t, Strip(sig)[1..], count);
    v := Dict(es);
    if ret >= 0 && buf.off - start != size {
      ret := E_BADMSG;
    }
  }

  /** The loop over the entries; each goes to its place, and one already present is not replaced. */
  method DeserialEntries(buf: Buffer, k: Kind, t: Type, sig: string, count: nat) returns (ret: Status, es: seq<Entry>)
    requires buf.Valid()
    modifies buf`off
    ensures var r := DecodeEntries(k, t, sig, old(buf.Contents()), count, []);
            Consumed(buf, r.rest) && ret == r.ret && es == r.val
    decreases t, 1
  {
    hide Buffer.Valid, Decode, DecodeElems, DecodeEntries, ReadAtom;
    ghost var goal := DecodeEntries(k, t, sig, buf.Contents(), count, []);
    es := [];
    ret := 0;
    var i := 0;
    while i < count
      invariant 0 <= i <= count && buf.Valid() && ret == 0
      invariant goal == DecodeEntries(k, t, sig, buf.Contents(), count - i, es)
    {
      DecodeEntriesStep(k, t, sig, buf.Contents(), count - i, es);
      var key, val;
      ret, key := DeserialAtom(buf, k);
      if ret < 0 {
        return;
      }
      ret, val := DeserialElem(buf, t, sig);
      if ret < 0 {
        return;
      }
      es := Insert(k, es, key, val);
      i := i + 1;
    }
    DecodeEntriesStep(k, t, sig, buf.Contents(), 0, es);
  }

  lemma DecodeEntriesStep(k: Kind, t: Type, sig: string, s: bytes, n: nat, acc: seq<Entry>)
    ensures var all, key := DecodeEntries(k, t, sig, s, n, acc), ReadAtom(k, s);
            var val := Decode(t, sig, key.rest);
            if n == 0 then all == Read(0, acc, s)
            else if key.ret < 0 then all == Read(key.ret, acc, key.rest)
            else if val.ret < 0 then all == Read(val.ret, acc, val.rest)
            else all == DecodeEntries(k, t, sig, val.rest, n - 1, Insert(k, acc, key.val, val.val))
  {
  }
}
