/**
 The serializers of buffers, property maps and vectors, and the deserializers. A serializer fills a buffer
 that it resizes on the way; what it leaves there is an encoding in the sense of `Encodes`.
 */
module ObjectSerializer {
  import opened Bytes
  import opened Buffers
  import opened ObjectMemory
  import opened Objects
  import opened ObjectProofs
  import opened ObjectLayout

  // ---- Buffers ----

  /** The value in network order, at its place in the output. */
  method SerializePrimeType(t: Tag, data: bytes, out: Buffer, pos: nat)
    requires out.Valid() && pos + |data| <= |out.Contents()|
    requires data != [] && (Width(t) > 0 ==> |data| == Width(t))
    modifies out.data, out`whole
    ensures out.Valid() && out.Contents() == Splice(old(out.Contents()), pos, NetOrder(t, data))
  {
    hide Buffer.Valid, StrCopy, StrNCopy;
    match t
    case None_ | ByteArr =>
      out.Poke(pos, data);
    case Byte =>
      assert Reversed(data) == data;
      out.Poke(pos, data);
    case UInt16 | UInt32 | Float | UInt64 | Double =>
      out.Poke(pos, Reversed(data));
    case String =>
      PutString(data, out, pos);
  }

  method PutString(data: bytes, out: Buffer, pos: nat)
    requires out.Valid() && pos + |data| <= |out.Contents()| && data != []
    modifies out.data, out`whole
    ensures out.Valid() && out.Contents() == Splice(old(out.Contents()), pos, StrCopy(data))
  {
    hide Buffer.Valid, StrCopy, StrNCopy, Splice;
    ghost var was := out.Contents();
    out.Poke(pos, StrNCopy(data));
    out.Poke(pos + |data| - 1, [0]);
    StrNCopyThenZero(data);
    SpliceTwice(was, pos, StrNCopy(data), |data| - 1, [0]);
  }

  /** The assignment of a header that leaves its reserved bytes alone. */
  method PutBufHeader(b: Buf, out: Buffer)
    requires out.Valid() && |out.Contents()| >= BUF_HEADER_SIZE
    modifies out.data, out`whole
    ensures out.Valid() && |out.Contents()| == old(|out.Contents()|) && BufHead(b, out.Contents())
  {
    hide Buffer.Valid, BE;
    var n := out.Size();
    ghost var c0 := out.Contents();
    BufHeadWritten(b, c0);
    out.Poke(0, BE(CLSID_BUFFER, 4) + BE(n - BUF_HEADER_SIZE, 4) + [1]);
    out.Poke(12, BE(BufType(b), 4) + BE(if b.Ref? then Clsid(b.obj) else 0, 4));
  }

  method SerializeBuf(b: Buf, out: Buffer, page: nat) returns (ret: int)
    requires out.Valid() && BufShaped(b) && BufFits(b, page) && page >= MIN_PAGE
    modifies out.Repr
    ensures out.Valid() && fresh(out.Repr - old(out.Repr))
    ensures ret == if BufNullFree(b) then 0 else E_FAULT
    ensures ret == 0 ==> BufEncodes(b, out.Contents())
    decreases b
  {
    hide Buffer.Valid, BufHead, NetOrder, Encodes, Shaped, Fits, NullFree, Len;
    var _ := out.Resize(BUF_HEADER_SIZE);
    match b
    case Empty =>
      PutBufHeader(b, out);
      return 0;
    case Ref(o) =>
      if o.Null? {
        NullIsNull(o);
        return E_FAULT;
      }
      var newBuf := new Buffer(0);
      ret := SerializeObj(o, newBuf, page);
      if ret == 0 {
        var payload := newBuf.Read();
        EncodesLen(o, payload);
        PutWrapped(b, payload, out);
      }
    case Mem(t, data) =>
      PutMem(t, data, out);
      return 0;
  }

  method PutWrapped(b: Buf, payload: bytes, out: Buffer)
    requires out.Valid() && BUF_HEADER_SIZE + |payload| <= MAX_BYTES_PER_BUFFER
    modifies out.Repr
    ensures out.Valid() && fresh(out.Repr - old(out.Repr))
    ensures |out.Contents()| == BUF_HEADER_SIZE + |payload|
    ensures BufHead(b, out.Contents()) && out.Contents()[20..] == payload
  {
    hide Buffer.Valid, BufHead, Splice;
    var _ := out.Resize(BUF_HEADER_SIZE + |payload|);
    PutBufHeader(b, out);
    BufHeadKept(b, out.Contents(), payload);
    out.Poke(BUF_HEADER_SIZE, payload);
  }

  method PutMem(t: Tag, data: bytes, out: Buffer)
    requires out.Valid() && BufShaped(Mem(t, data)) && BUF_HEADER_SIZE + |data| <= MAX_BYTES_PER_BUFFER
    modifies out.Repr
    ensures out.Valid() && fresh(out.Repr - old(out.Repr))
    ensures BufEncodes(Mem(t, data), out.Contents())
  {
    hide Buffer.Valid, BufHead, Splice, NetOrder;
    var _ := out.Resize(BUF_HEADER_SIZE + |data|);
    PutBufHeader(Mem(t, data), out);
    BufHeadKept(Mem(t, data), out.Contents(), NetOrder(t, data));
    SerializePrimeType(t, data, out, BUF_HEADER_SIZE);
  }

  /** The virtual call. */
  method SerializeObj(o: Obj, out: Buffer, page: nat) returns (ret: int)
    requires out.Valid() && Shaped(o) && Fits(o, page) && page >= MIN_PAGE && !o.Null?
    modifies out.Repr
    ensures out.Valid() && fresh(out.Repr - old(out.Repr))
    ensures ret == if NullFree(o) then 0 else E_FAULT
    ensures ret == 0 ==> Encodes(o, out.Contents())
    decreases o, 1
  {
    hide Buffer.Valid, BufShaped, BufFits, BufNullFree, BufEncodes, PropsShaped, ElemsShaped;
    hide ConfigEncodes, VectorEncodes;
    hide NumsEncode, Offset, PropOffset, BufLen, Cap;
    match o {
      case Boxed(b) =>
        ret := SerializeBuf(b, out, page);
      case Config(ps) =>
        var db := new ConfigDb(ps);
        ret := db.Serialize(out, page);
      case Vector(es) =>
        var vector := new ObjVector(es);
        ret := vector.Serialize(out, page);
      case Ints(xs) =>
        SerializeNums(CLSID_INTVEC, 4, xs, out);
        ret := 0;
      case Qwords(xs) =>
        SerializeNums(CLSID_QWVEC, 8, xs, out);
        ret := 0;
    }
    if ret == 0 {
      EncodesCase(o, out.Contents());
    }
  }

  // ---- Property maps ----

  /** Room is made, then the key written; the gap for the size is skipped. */
  method PutKey(key: nat, out: Buffer, loc: nat, page: nat)
    requires out.Valid() && page >= MIN_PAGE && HEADER_SIZE <= loc <= |out.Contents()| + 3
    requires KeyCap(|out.Contents()|, loc, page) <= MAX_BYTES_PER_BUFFER
    modifies out.Repr
    ensures out.Valid() && fresh(out.Repr - old(out.Repr))
    ensures loc + 8 <= |out.Contents()| == KeyCap(old(|out.Contents()|), loc, page)
    ensures KeyPut(key, loc, page, old(out.Contents()), out.Contents())
  {
    hide Buffer.Valid, BE, Splice, SameBefore;
    ghost var c := out.Contents();
    var room := out.Size();
    if !(room - loc > 8) {
      ResizeBuf(out, room + page);
    }
    ghost var c1 := out.Contents();
    GrowSame(loc, c, c1);
    var k := BE(key, 4);
    out.Poke(loc, k);
    SpliceSameBefore(loc, c1, loc, k);
    SameBeforeChain(loc, loc, c, c1, out.Contents());
    SpliceInside(c1, loc, k, 0, 4);
    assert k[0..4] == k;
  }

  /** Room is made, the value written, and last its padded size in the gap before it. */
  method PutValue(val: bytes, out: Buffer, loc: nat, page: nat)
    requires out.Valid() && page >= MIN_PAGE && HEADER_SIZE <= loc && loc + 8 <= |out.Contents()|
    requires ValCap(|out.Contents()|, loc + 8, |val|, page) <= MAX_BYTES_PER_BUFFER
    modifies out.Repr
    ensures out.Valid() && fresh(out.Repr - old(out.Repr))
    ensures loc + 8 + |val| <= |out.Contents()| == ValCap(old(|out.Contents()|), loc + 8, |val|, page)
    ensures ValuePut(val, loc, page, old(out.Contents()), out.Contents())
  {
    hide Buffer.Valid, BE, Splice, SameBefore;
    ghost var c := out.Contents();
    var room := out.Size();
    if !(room - (loc + 8) >= |val|) {
      ResizeBuf(out, room + AlignDword(|val|) + page);
    }
    ghost var c1 := out.Contents();
    GrowSame(loc + 4, c, c1);
    out.Poke(loc + 8, val);
    var size := BE(AlignDword(|val|), 4);
    out.Poke(loc + 4, size);
    ValueWritten(val, size, loc, c, c1);
  }

  /**
   One round of the loop. The cursor may stand up to three bytes past the end of the buffer before
   and after it; every write lies inside the buffer as it then is.
   */
  method SerializeEntry(p: Prop, out: Buffer, loc: nat, page: nat) returns (ret: int, next: nat)
    requires out.Valid() && PropShaped(p) && BufFits(p.val, page) && page >= MIN_PAGE
    requires HEADER_SIZE <= loc <= |out.Contents()| + 3
    requires EntryCap(p, |out.Contents()|, loc, page) <= MAX_BYTES_PER_BUFFER
    modifies out.Repr
    ensures out.Valid() && fresh(out.Repr - old(out.Repr))
    ensures ret == if BufNullFree(p.val) then 0 else E_FAULT
    ensures ret == 0 ==> next == loc + PropLen(p) <= |out.Contents()| + 3
    ensures ret == 0 ==> EntryAdded(p, loc, page, old(out.Contents()), out.Contents())
    decreases p, 0
  {
    hide Buffer.Valid, BufEncodes, BufShaped, BufFits, BufNullFree, BufLen, KeyPut, ValuePut, EntryAdded;
    next := loc;
    ghost var c := out.Contents();
    PutKey(p.key, out, loc, page);
    ghost var mid := out.Contents();
    var valBuf := new Buffer(0);
    ret := SerializeBuf(p.val, valBuf, page);
    if ret == 0 {
      var val := valBuf.Read();
      BufEncodesLen(p.val, val);
      PutValue(val, out, loc, page);
      EntryWritten(p, val, loc, page, c, mid, out.Contents());
      next := loc + 8 + AlignDword(|val|);
    }
  }

  /** RESIZE_BUF: the cursor keeps its distance from the start of the buffer. */
  method ResizeBuf(out: Buffer, n: nat)
    requires out.Valid() && 0 < n <= MAX_BYTES_PER_BUFFER
    modifies out.Repr
    ensures out.Valid() && fresh(out.Repr - old(out.Repr)) && |out.Contents()| == n
    ensures out.Contents()[..Min(n, old(|out.Contents()|))] == old(out.Contents())[..Min(n, old(|out.Contents()|))]
  {
    hide Buffer.Valid;
    var _ := out.Resize(n);
  }

  /** The size is estimated from the values in memory. */
  method EstimateSize(ps: seq<Prop>) returns (size: nat)
    ensures size == Estimate(ps, |ps|)
  {
    size := 0;
    var i := 0;
    while i < |ps|
      invariant i <= |ps| && size == Estimate(ps, i)
    {
      size := size + 8;
      size := size + MemSize(ps[i].val);
      i := i + 1;
    }
  }

  /** The property map. */
  class ConfigDb {
    // m_mapProps, in its iteration order
    var props: seq<Prop>

    constructor (ps: seq<Prop>)
      ensures props == ps
    {
      props := ps;
    }

    method Serialize(out: Buffer, page: nat) returns (ret: int)
      requires this !in out.Repr && out.Valid()
      requires Shaped(Config(props)) && Fits(Config(props), page) && page >= MIN_PAGE
      modifies out.Repr
      ensures out.Valid() && fresh(out.Repr - old(out.Repr))
      ensures ret == if NullFree(Config(props)) then 0 else E_FAULT
      ensures ret == 0 ==> ConfigEncodes(props, out.Contents())
      decreases props, 1
    {
      hide Buffer.Valid, BE, Written, HeadWritten, ConfigEncodes, BufNullFree, BufFits, Header, PropOffset;
      hide Splice, Estimate, Cap;
      var size := EstimateSize(props);
      CapStart(props, page);
      CapGrows(props, 0, page);
      ResizeBuf(out, size + HEADER_SIZE + page);
      var head := Header(CLSID_CONFIG, size) + BE(|props|, 4);
      HeadPoked(|props|, size, out.Contents());
      out.Poke(0, head);
      var loc;
      ret, loc := SerializeEntries(out, page);
      if ret == 0 {
        ghost var c := out.Contents();
        out.Poke(4, BE(loc - BASE_SIZE, 4));
        ghost var e := out.Contents();
        ResizeBuf(out, loc);
        CutSame(loc, e, out.Contents());
        ConfigDone(props, loc, c, out.Contents());
      }
    }

    /** The key gets the value, whether it was there or not. */
    method SetProperty(key: nat, val: Buf)
      modifies this
      ensures props == SetProp(old(props), key, val)
      ensures forall k :: Lookup(props, k) == if k == key then Some(val) else Lookup(old(props), k)
      ensures DistinctKeys(old(props)) ==> DistinctKeys(props)
    {
      hide DistinctKeys, SetProp, Lookup;
      forall k {
        SetThenLookup(props, key, val, k);
      }
      if DistinctKeys(props) {
        SetKeepsDistinct(props, key, val);
      }
      props := SetProp(props, key, val);
    }

    /** Entries are set one by one as they are read; a failure leaves those before it. */
    method Deserialize(mem: array<byte>, at: nat, end: nat, size: nat) returns (ret: Status)
      requires at <= end <= mem.Length
      modifies this
      ensures PropsRead(ret, props) == ReadConfig(mem[at..end], size, old(props))
      decreases end - at, 3
    {
      hide ReadProps, FromBE;
      if size == 0 {
        return E_INVAL;
      }
      if end - at < HEADER_SIZE {
        return E_FAULT;
      }
      WordIn(mem, at, end, 0);
      WordIn(mem, at, end, 4);
      WordIn(mem, at, end, 12);
      if Word(mem, at) != CLSID_CONFIG || Word(mem, at + 12) > CFGDB_MAX_ITEM
         || Word(mem, at + 4) + BASE_SIZE > size || Word(mem, at + 4) > CFGDB_MAX_SIZE {
        return E_INVAL;
      }
      ret := DeserializeEntries(mem, at, end, size, Word(mem, at + 12));
    }

    /** The overload that takes a buffer. */
    method DeserializeFrom(a: Buffer) returns (ret: Status)
      requires a.Valid() && this !in a.Repr
      modifies this
      ensures a.Valid() && a.Contents() == old(a.Contents())
      ensures a.Contents() == [] ==> ret == E_INVAL && props == old(props)
      ensures a.Contents() != [] ==>
                PropsRead(ret, props) == ReadConfig(a.Contents(), |a.Contents()|, old(props))
      decreases a.tail - a.off, 4
    {
      hide ReadConfig;
      var n := a.Size();
      if n == 0 {
        return E_INVAL;
      }
      a.Stored(a.off, a.tail);
      ret := Deserialize(a.data, a.off, a.tail, n);
    }

    method DeserializeEntries(mem: array<byte>, at: nat, end: nat, size: nat, count: nat) returns (ret: Status)
      requires at + HEADER_SIZE <= end <= mem.Length
      modifies this
      ensures PropsRead(ret, props) == ReadProps(mem[at..end], size, HEADER_SIZE, count, old(props))
      decreases end - at, 2
    {
      hide DecodeBuf, FromBE, SetProp, Lookup, DistinctKeys;
      ghost var m := mem[at..end];
      var loc: nat, i := HEADER_SIZE, 0;
      while i < count
        invariant i <= count
        invariant ReadProps(m, size, loc, count - i, props) == ReadProps(m, size, HEADER_SIZE, count, old(props))
      {
        if at + loc + 8 > end {
          return E_FAULT;
        }
        WordIn(mem, at, end, loc);
        WordIn(mem, at, end, loc + 4);
        PartIn(mem, at, end, loc + 8, end - at);
        var key, valSize := Word(mem, at + loc), Word(mem, at + loc + 4);
        var val;
        ret, val := DeserializeBuf(mem, at + loc + 8, end);
        if ret < 0 {
          return;
        }
        SetProperty(key, val);
        loc := loc + 8 + valSize;
        if loc % UINT32_LIMIT > size {
          return E_2BIG;
        }
        i := i + 1;
      }
      return 0;
    }

    /** The loop over the entries, from just after the header. */
    method SerializeEntries(out: Buffer, page: nat) returns (ret: int, loc: nat)
      requires this !in out.Repr && out.Valid()
      requires Shaped(Config(props)) && Fits(Config(props), page) && page >= MIN_PAGE
      requires |out.Contents()| == Cap(props, 0, page) && HeadWritten(|props|, out.Contents())
      modifies out.Repr
      ensures out.Valid() && fresh(out.Repr - old(out.Repr))
      ensures ret == if NullFree(Config(props)) then 0 else E_FAULT
      ensures ret == 0 ==> loc == HEADER_SIZE + PropOffset(props, |props|) <= |out.Contents()| + 3
      ensures ret == 0 ==> HeadWritten(|props|, out.Contents()) && Written(props, |props|, out.Contents())
      decreases props, 0
    {
      hide Buffer.Valid, BE, Written, HeadWritten, EntryAdded, BufNullFree, BufFits, BufShaped, PropOffset;
      hide Cap, EntryCap, PropLen;
      ret := 0;
      var ps := props;
      NothingWritten(ps, out.Contents());
      loc := HEADER_SIZE;
      var i := 0;
      while i < |ps|
        invariant i <= |ps| && out.Valid() && fresh(out.Repr - old(out.Repr)) && this !in out.Repr
        invariant HEADER_SIZE <= loc == HEADER_SIZE + PropOffset(ps, i) <= |out.Contents()| + 3
        invariant |out.Contents()| == Cap(ps, i, page)
        invariant HeadWritten(|ps|, out.Contents()) && Written(ps, i, out.Contents())
        invariant ret == 0 && forall k :: 0 <= k < i ==> BufNullFree(ps[k].val)
      {
        ghost var c := out.Contents();
        CapGrows(ps, i + 1, page);
        NextCap(ps, i, page);
        PropOffsetGrows(ps, i);
        assert PropShaped(ps[i]);
        ret, loc := SerializeEntry(ps[i], out, loc, page);
        if ret < 0 {
          return;
        }
        EntryCounted(ps, i, page, c, out.Contents());
        assert loc <= CFGDB_MAX_SIZE;
        if loc > CFGDB_MAX_SIZE {
          // ENOMEM in the source: never reached
          assert false;
        }
        i := i + 1;
      }
    }
  }

  // ---- Vectors of numbers ----

  /** The vectors of integers of `w` bytes: a header and the elements one after the other. */
  method SerializeNums(clsid: nat, w: nat, xs: seq<nat>, out: Buffer)
    requires out.Valid() && (w == 4 || w == 8) && HEADER_SIZE + w * |xs| <= MAX_BYTES_PER_BUFFER
    modifies out.Repr
    ensures out.Valid() && fresh(out.Repr - old(out.Repr))
    ensures NumsEncode(clsid, w, xs, out.Contents())
  {
    hide Buffer.Valid, BE, NumBytes, Header, Splice;
    NumBytesLen(w, xs);
    ResizeBuf(out, HEADER_SIZE + w * |xs|);
    var head := Header(clsid, w * |xs| + 4) + BE(|xs|, 4);
    SplicePrefix(out.Contents(), 0, head);
    out.Poke(0, head);
    PutNums(w, xs, out, head);
  }

  /** The loop over the elements, from just after the header. */
  method PutNums(w: nat, xs: seq<nat>, out: Buffer, ghost head: bytes)
    requires out.Valid() && |out.Contents()| == |head| + |NumBytes(w, xs)| && |head| == HEADER_SIZE
    requires out.Contents()[..HEADER_SIZE] == head
    modifies out.data, out`whole
    ensures out.Valid() && out.Contents() == head + NumBytes(w, xs)
  {
    hide Buffer.Valid, BE, NumBytes, Splice;
    var elem, i := HEADER_SIZE, 0;
    NoNums(w, xs);
    while i < |xs|
      invariant i <= |xs| && out.Valid() && out.data == old(out.data)
      invariant HEADER_SIZE <= elem && elem + |NumBytes(w, xs[i..])| == |out.Contents()| == |head| + |NumBytes(w, xs)|
      invariant out.Contents()[..elem] == head + NumBytes(w, xs[..i])
    {
      NumsLeft(w, xs, i);
      NumPut(w, xs, i, head, out.Contents(), elem);
      out.Poke(elem, BE(xs[i], w));
      elem := elem + w;
      i := i + 1;
    }
    assert xs[..|xs|] == xs && out.Contents()[..elem] == out.Contents();
  }

  // ---- Vectors of objects ----

  method PutField(out: Buffer, at: nat, field: bytes)
    requires out.Valid() && |field| == 4 && at + 4 <= |out.Contents()|
    modifies out.data, out`whole
    ensures out.Valid() && FieldPut(old(out.Contents()), out.Contents(), at, field)
  {
    hide Buffer.Valid;
    out.Poke(at, field);
  }

  method SwapField(out: Buffer, at: nat)
    requires out.Valid() && at + 4 <= |out.Contents()|
    modifies out.data, out`whole
    ensures out.Valid()
    ensures FieldPut(old(out.Contents()), out.Contents(), at, Reversed(old(out.Contents()[at..at + 4])))
  {
    hide Buffer.Valid, FieldPut, Reversed;
    var c := out.Read();
    PutField(out, at, Reversed(c[at..at + 4]));
  }

  /** The table and the header go to network order, unless there are too many offsets. */
  method Hton(out: Buffer, count: nat)
    requires out.Valid() && HEADER_SIZE + 4 * count <= |out.Contents()|
    modifies out.data, out`whole
    ensures out.Valid() && Converted(count, old(out.Contents()), out.Contents())
  {
    hide Buffer.Valid, FieldPut, Reversed, SlotSwapped;
    if count > MAX_ELEM_CONTAINER {
      return;
    }
    ghost var c := out.Contents();
    var i := 0;
    while i < count
      invariant i <= count && out.Valid() && |out.Contents()| == |c| && out.data == old(out.data)
      invariant TableConverted(i, c, out.Contents())
    {
      ghost var d := out.Contents();
      SwapField(out, HEADER_SIZE + 4 * i);
      SlotConverted(i, c, d, out.Contents());
      i := i + 1;
    }
    ghost var d := out.Contents();
    SwapField(out, 12);
    ghost var d1 := out.Contents();
    assert |d1| == |c| by { FieldPutLen(d, d1, 12, Reversed(d[12..16])); }
    SwapField(out, 0);
    ghost var d2 := out.Contents();
    assert |d2| == |c| by { FieldPutLen(d1, d2, 0, Reversed(d1[0..4])); }
    SwapField(out, 4);
    HeaderConverted(count, c, d, d1, d2, out.Contents());
  }

  /** The zeros that bring the payload to the next multiple of four. */
  method AppendPadding(out: Buffer, padding: Buffer, n: nat) returns (ghost pad: bytes)
    requires out.Valid() && padding.Valid() && out.Repr !! padding.Repr
    requires 0 < n < 4 && |out.Contents()| + n <= MAX_BYTES_PER_BUFFER
    modifies out.Repr, padding.Repr
    ensures out.Valid() && padding.Valid() && out.Repr !! padding.Repr
    ensures fresh(out.Repr - old(out.Repr)) && fresh(padding.Repr - old(padding.Repr))
    ensures |pad| == n && out.Contents() == old(out.Contents()) + pad
  {
    hide Buffer.Valid;
    ResizeBuf(padding, n);
    var block := padding.Read();
    var _ := out.Append(block);
    pad := block;
  }

  /** One round of the loop; `pos` is where the element starts in the payload. */
  method SerializeElem(o: Obj, out: Buffer, padding: Buffer, slot: nat, pos: nat, page: nat)
    returns (ret: int, next: nat)
    requires out.Valid() && padding.Valid() && out.Repr !! padding.Repr
    requires Shaped(o) && Fits(o, page) && page >= MIN_PAGE && pos % 4 == 0
    requires HEADER_SIZE <= slot && slot + 4 <= |out.Contents()|
    requires |out.Contents()| + AlignDword(Len(o)) <= MAX_BYTES_PER_BUFFER
    modifies out.Repr, padding.Repr
    ensures out.Valid() && padding.Valid() && out.Repr !! padding.Repr
    ensures fresh(out.Repr - old(out.Repr)) && fresh(padding.Repr - old(padding.Repr))
    ensures ret == if NullFree(o) then 0 else E_FAULT
    ensures |out.Contents()| >= old(|out.Contents()|)
    ensures ret == 0 ==> next == pos + AlignDword(Len(o))
    ensures ret == 0 ==> ElemAdded(o, slot, pos, old(out.Contents()), out.Contents())
    decreases o, 2
  {
    hide Buffer.Valid, Encodes, Shaped, Fits, NullFree, Len, FieldPut, Field;
    next := pos;
    ghost var c := out.Contents();
    PutField(out, slot, Field(pos, false));
    ghost var c1 := out.Contents();
    FieldPutLen(c, c1, slot, Field(pos, false));
    if o.Null? {
      NullIsNull(o);
      return E_FAULT, pos;
    }
    var elemBuf := new Buffer(0);
    ret := SerializeObj(o, elemBuf, page);
    if ret < 0 {
      return;
    }
    var elem := elemBuf.Read();
    EncodesLen(o, elem);
    ghost var pad;
    next, pad := AppendElem(out, padding, elem, pos);
    ElemWritten(o, slot, pos, c, c1, elem, pad);
  }

  method AppendElem(out: Buffer, padding: Buffer, elem: bytes, pos: nat) returns (next: nat, ghost pad: bytes)
    requires out.Valid() && padding.Valid() && out.Repr !! padding.Repr
    requires pos % 4 == 0 && |out.Contents()| + AlignDword(|elem|) <= MAX_BYTES_PER_BUFFER
    modifies out.Repr, padding.Repr
    ensures out.Valid() && padding.Valid() && out.Repr !! padding.Repr
    ensures fresh(out.Repr - old(out.Repr)) && fresh(padding.Repr - old(padding.Repr))
    ensures |elem| + |pad| == AlignDword(|elem|) && next == pos + AlignDword(|elem|)
    ensures out.Contents() == old(out.Contents()) + elem + pad
  {
    hide Buffer.Valid;
    var _ := out.Append(elem);
    next := pos + |elem|;
    pad := [];
    if next % 4 != 0 {
      var n := 4 - next % 4;
      pad := AppendPadding(out, padding, n);
      next := next + n;
    }
  }

  /** After the loop: the last offset, the size and the count, and then everything to network order. */
  method Finish(out: Buffer, ghost es: seq<Obj>, n: nat, pos: nat)
    requires out.Valid() && n == |es| && |out.Contents()| >= PayloadStart(n)
    modifies out.data, out`whole
    ensures out.Valid()
    ensures pos == Offset(es, n) && Progress(es, n, old(out.Contents())) ==> VectorEncodes(es, out.Contents())
  {
    hide Buffer.Valid, Progress, FieldPut, Field, Converted, HeaderFilled, VectorEncodes, Offset;
    ghost var c := out.Contents();
    PutField(out, HEADER_SIZE + 4 * n, Field(pos, false));
    ghost var c1 := out.Contents();
    FieldPutLen(c, c1, HEADER_SIZE + 4 * n, Field(pos, false));
    var size := out.Size();
    PutField(out, 4, Field(size - BASE_SIZE, false));
    ghost var c2 := out.Contents();
    FieldPutLen(c1, c2, 4, Field(size - BASE_SIZE, false));
    PutField(out, 12, Field(n + 1, false));
    ghost var d := out.Contents();
    FieldPutLen(c2, d, 12, Field(n + 1, false));
    Hton(out, n + 1);
    if pos == Offset(es, n) && Progress(es, n, c) {
      HeaderFilledIn(es, c, c1, c2, d);
      VectorDone(es, c, d, out.Contents());
    }
  }

  /** The vector of objects. */
  class ObjVector {
    // m_vecElems
    var elems: seq<Obj>

    constructor (es: seq<Obj>)
      ensures elems == es
    {
      elems := es;
    }

    /** The offsets are kept in host order until the end; a failure leaves a converted header all the same. */
    method Serialize(out: Buffer, page: nat) returns (ret: int)
      requires this !in out.Repr && out.Valid()
      requires Shaped(Vector(elems)) && Fits(Vector(elems), page) && page >= MIN_PAGE
      modifies out.Repr
      ensures out.Valid() && fresh(out.Repr - old(out.Repr))
      ensures ret == if NullFree(Vector(elems)) then 0 else E_FAULT
      ensures ret == 0 ==> VectorEncodes(elems, out.Contents())
      decreases elems, 1
    {
      hide Buffer.Valid, Progress, Field, VectorEncodes, Splice, Offset, NullFree, Fits, ElemsShaped;
      VectorLen(elems);
      var count := |elems| + 1;
      ResizeBuf(out, HEADER_SIZE + 4 * count);
      HostHeader(out.Contents(), elems);
      out.Poke(0, Field(CLSID_OBJVEC, false) + Field(0, false) + [1, 0, 0, 0] + Field(0, false));
      var pos;
      ret, pos := SerializeElems(out, page);
      Finish(out, elems, |elems|, pos);
    }

    /** The header and the table are converted where they stand; a failure leaves the elements before it. */
    method Deserialize(mem: array<byte>, at: nat, end: nat, size: nat) returns (ret: Status)
      requires at <= end <= mem.Length
      modifies this, mem
      ensures ElemsRead(ret, elems, mem[at..end]) == ReadVector(old(mem[at..end]), size, old(elems))
      ensures mem[..at] == old(mem[..at]) && mem[end..] == old(mem[end..])
      decreases end - at, 3
    {
      hide ReadElems, U32, H32, Ntoh;
      if size < HEADER_SIZE {
        return E_INVAL;
      }
      if end - at < HEADER_SIZE {
        return E_FAULT;
      }
      ghost var m := mem[at..end];
      var ok := NtohInPlace(mem, at, end);
      if !ok {
        return E_FAULT;
      }
      HostHeaderRead(mem, at, end, m);
      if HostWord(mem, at) != CLSID_OBJVEC {
        return E_INVAL;
      }
      if size < HostWord(mem, at + 4) + 4 {
        return E_RANGE;
      }
      var count := HostWord(mem, at + 12);
      if count > MAX_ELEM_CONTAINER {
        return E_RANGE;
      }
      if HEADER_SIZE + 4 * count > SignedSize(size) {
        return E_INVAL;
      }
      if count == 0 {
        return E_FAULT;
      }
      elems := [];
      ret := DeserializeElems(mem, at, end, size, count - 1);
    }

    /** The overload that takes a buffer. */
    method DeserializeFrom(a: Buffer) returns (ret: Status)
      requires a.Valid() && this !in a.Repr
      modifies this, a.data, a`whole
      ensures a.Valid() && |a.Contents()| == |old(a.Contents())|
      ensures a.Contents() == [] ==> ret == E_INVAL && elems == old(elems)
      ensures a.Contents() != [] ==>
                ElemsRead(ret, elems, a.Contents()) == ReadVector(old(a.Contents()), |a.Contents()|, old(elems))
      decreases a.tail - a.off, 4
    {
      hide ReadVector;
      var n := a.Size();
      if n == 0 {
        return E_INVAL;
      }
      a.Stored(a.off, a.tail);
      ret := Deserialize(a.data, a.off, a.tail, n);
      a.whole := a.data[..a.size];
      a.Stored(a.off, a.tail);
    }

    method DeserializeElems(mem: array<byte>, at: nat, end: nat, size: nat, n: nat) returns (ret: Status)
      requires at + PayloadStart(n) <= end <= mem.Length
      modifies this, mem
      ensures ElemsRead(ret, elems, mem[at..end]) == ReadElems(old(mem[at..end]), size, n, 0, old(elems))
      ensures mem[..at] == old(mem[..at]) && mem[end..] == old(mem[end..])
      decreases end - at, 2
    {
      hide DecodeElem, ReadElems, U32, H32, Word, HostWord;
      ghost var r := ReadElems(mem[at..end], size, n, 0, elems);
      var i := 0;
      while i < n
        invariant i <= n && ReadElems(mem[at..end], size, n, i, elems) == r
        invariant mem[..at] == old(mem[..at]) && mem[end..] == old(mem[end..])
      {
        ElemsRound(mem[at..end], size, n, i, elems);
        HostWordIn(mem, at, end, 16 + 4 * i);
        HostWordIn(mem, at, end, 20 + 4 * i);
        var pos, next := HostWord(mem, at + 16 + 4 * i), HostWord(mem, at + 20 + 4 * i);
        var place := PayloadStart(n) + pos;
        if place >= SignedSize(size) {
          return E_NOMEM;
        }
        if at + place + 4 > end {
          return E_FAULT;
        }
        var elem;
        ret, elem := DeserializeElemAt(mem, at, end, place, (next - pos) % UINT32_LIMIT);
        if ret < 0 {
          return;
        }
        elems := elems + [elem];
        i := i + 1;
      }
      ElemsOver(mem[at..end], size, n, elems);
      return 0;
    }

    /** The loop over the elements; it stops at the first that fails. */
    method SerializeElems(out: Buffer, page: nat) returns (ret: int, pos: nat)
      requires this !in out.Repr && out.Valid()
      requires Shaped(Vector(elems)) && Fits(Vector(elems), page) && page >= MIN_PAGE
      requires Progress(elems, 0, out.Contents()) && |out.Contents()| == PayloadStart(|elems|)
      modifies out.Repr
      ensures out.Valid() && fresh(out.Repr - old(out.Repr))
      ensures |out.Contents()| >= old(|out.Contents()|)
      ensures ret == if NullFree(Vector(elems)) then 0 else E_FAULT
      ensures ret == 0 ==> pos == Offset(elems, |elems|) && Progress(elems, |elems|, out.Contents())
      decreases elems, 0
    {
      hide Buffer.Valid, Progress, ElemAdded, Encodes, Offset, Len, Shaped, Fits, NullFree, NullFreeBefore;
      var es := elems;
      var padding := new Buffer(0);
      ResizeBuf(padding, 4);
      padding.Poke(0, [0, 0, 0, 0]);
      ret, pos := 0, 0;
      NullFreeParts(es, 0);
      var i := 0;
      while i < |es|
        invariant i <= |es| && out.Valid() && padding.Valid() && out.Repr !! padding.Repr
        invariant fresh(out.Repr - old(out.Repr)) && fresh(padding.Repr) && this !in out.Repr
        invariant ret == 0 && pos == Offset(es, i) && Progress(es, i, out.Contents())
        invariant |out.Contents()| == PayloadStart(|es|) + pos
        invariant NullFreeBefore(es, i)
      {
        ghost var c := out.Contents();
        RoomForElem(es, i, page);
        NullFreeParts(es, i);
        ghost var at := pos;
        var slot := HEADER_SIZE + 4 * i;
        ret, pos := SerializeElem(es[i], out, padding, slot, pos, page);
        if ret < 0 {
          return;
        }
        ghost var d := out.Contents();
        assert ElemAdded(es[i], slot, at, c, d);
        ProgressStep(es, i, c, d);
        i := i + 1;
      }
      NullFreeParts(es, i);
    }
  }

  // ---- Deserializers ----

  /** A four-byte field of the memory, as htonl and ntohl give it. */
  function Word(mem: array<byte>, at: nat): nat
    requires at + 4 <= mem.Length
    reads mem
  {
    FromBE(mem[at..at + 4])
  }

  /** The same of a field in host order. */
  function HostWord(mem: array<byte>, at: nat): nat
    requires at + 4 <= mem.Length
    reads mem
  {
    FromBE(Reversed(mem[at..at + 4]))
  }

  lemma PartIn(mem: array<byte>, at: nat, end: nat, lo: nat, hi: nat)
    requires at <= end <= mem.Length && lo <= hi <= end - at
    ensures mem[at..end][lo..hi] == mem[at + lo..at + hi]
    ensures hi == end - at ==> mem[at..end][lo..] == mem[at + lo..end]
  {
    SliceInSlice(mem[..], at, end, lo, hi);
    ArraySlice(mem, mem.Length, at, end);
    ArraySlice(mem, mem.Length, at + lo, at + hi);
  }

  lemma WordIn(mem: array<byte>, at: nat, end: nat, k: nat)
    requires at + k + 4 <= end <= mem.Length
    ensures U32(mem[at..end], k) == Word(mem, at + k)
  {
    PartIn(mem, at, end, k, k + 4);
  }

  lemma HostWordIn(mem: array<byte>, at: nat, end: nat, k: nat)
    requires at + k + 4 <= end <= mem.Length
    ensures H32(mem[at..end], k) == HostWord(mem, at + k)
  {
    PartIn(mem, at, end, k, k + 4);
  }

  /** What an element did to its own memory, seen from the memory of the vector. */
  lemma PartChanged(c: bytes, d: bytes, at: nat, from: nat, end: nat)
    requires at <= from <= end <= |c| == |d| && d[..from] == c[..from] && d[end..] == c[end..]
    ensures d[at..end] == c[at..end][..from - at] + d[from..end]
    ensures d[..at] == c[..at]
  {
    assert d[at..end] == d[at..from] + d[from..end];
    assert d[at..from] == d[..from][at..] == c[..from][at..] == c[at..from];
    SliceOfSlice(c, at, end, from - at);
    assert d[..at] == d[..from][..at] == c[..from][..at];
  }

  /** The fields of a converted header. */
  lemma HostHeaderRead(mem: array<byte>, at: nat, end: nat, m: bytes)
    requires at + HEADER_SIZE <= end <= mem.Length && |m| == end - at && mem[at..end] == Ntoh(m)
    ensures HostWord(mem, at) == U32(m, 0) && HostWord(mem, at + 4) == U32(m, 4)
    ensures HostWord(mem, at + 12) == U32(m, 12)
  {
    hide Ntoh, FromBE, Reversed;
    var h := Ntoh(m);
    NtohHeader(m);
    assert h[0..4] == h[..4] && m[0..4] == m[..4];
    HostField(m, h, 0);
    HostField(m, h, 4);
    HostField(m, h, 12);
    HostWordIn(mem, at, end, 0);
    HostWordIn(mem, at, end, 4);
    HostWordIn(mem, at, end, 12);
  }

  method SwapWord(mem: array<byte>, at: nat, end: nat, k: nat)
    requires at + k + 4 <= end <= mem.Length
    modifies mem
    ensures FieldPut(old(mem[at..end]), mem[at..end], k, Reversed(old(mem[at..end])[k..k + 4]))
    ensures mem[..at] == old(mem[..at]) && mem[end..] == old(mem[end..])
  {
    hide FieldPut, Reversed, Splice;
    var field := Reversed(mem[at + k..at + k + 4]);
    PartIn(mem, at, end, k, k + 4);
    ghost var c := mem[..];
    FieldPutIn(c, field, k, at, end);
    MemCopy(mem, at + k, field);
    WholeArray(mem, at, end);
    assert c[at..end] == old(mem[at..end]) && c[..at] == old(mem[..at]) && c[end..] == old(mem[end..]);
  }

  lemma WholeArray(mem: array<byte>, at: nat, end: nat)
    requires at <= end <= mem.Length
    ensures mem[..][at..end] == mem[at..end] && mem[..][..at] == mem[..at] && mem[..][end..] == mem[end..]
  {
  }

  /** The header of a vector and its table, to host order; it fails where the table is longer than the memory. */
  method NtohInPlace(mem: array<byte>, at: nat, end: nat) returns (ok: bool)
    requires at + HEADER_SIZE <= end <= mem.Length
    modifies mem
    ensures mem[at..end] == Ntoh(old(mem[at..end]))
    ensures mem[..at] == old(mem[..at]) && mem[end..] == old(mem[end..])
    ensures var count := U32(old(mem[at..end]), 12);
            ok <==> count > MAX_ELEM_CONTAINER || HEADER_SIZE + 4 * count <= end - at
  {
    hide FieldPut, Reversed, Ntoh, U32, H32, HalfConverted;
    ghost var m := mem[at..end];
    SwapWord(mem, at, end, 0);
    ghost var v1 := mem[at..end];
    SwapWord(mem, at, end, 4);
    ghost var v2 := mem[at..end];
    SwapWord(mem, at, end, 12);
    NtohFront(m, v1, v2, mem[at..end]);
    HostWordIn(mem, at, end, 12);
    var count := HostWord(mem, at + 12);
    ok := count > MAX_ELEM_CONTAINER || HEADER_SIZE + 4 * count <= end - at;
    var n := if count <= MAX_ELEM_CONTAINER && ok then count else 0;
    assert TableSize(m) == 4 * n;
    var i := 0;
    while i < n
      invariant i <= n && HalfConverted(m, mem[at..end], 16 + 4 * i)
      invariant mem[..at] == old(mem[..at]) && mem[end..] == old(mem[end..])
    {
      ghost var v := mem[at..end];
      SwapWord(mem, at, end, 16 + 4 * i);
      NtohStep(m, v, mem[at..end], i);
      i := i + 1;
    }
    NtohEnd(m, mem[at..end], 16 + 4 * n);
  }

  /** A buffer, from memory that begins with its header. */
  method DeserializeBuf(mem: array<byte>, at: nat, end: nat) returns (ret: int, val: Buf)
    requires at <= end <= mem.Length
    ensures var r := DecodeBuf(mem[at..end]); if r.Ok? then ret == 0 && val == r.val else ret == r.code
    decreases end - at, 4
  {
    hide DecodeRef, DecodeMem, U32, Word, Buffer.Valid;
    val := Empty;
    if end - at < BUF_HEADER_SIZE {
      return E_FAULT, val;
    }
    WordIn(mem, at, end, 0);
    WordIn(mem, at, end, 4);
    WordIn(mem, at, end, 12);
    WordIn(mem, at, end, 16);
    if Word(mem, at) != CLSID_BUFFER {
      return E_INVAL, val;
    }
    var size, type_ := Word(mem, at + 4), Word(mem, at + 12);
    if size > BUF_MAX_SIZE {
      return E_INVAL, val;
    }
    if type_ % 16 == DATA_MEM {
      PartIn(mem, at, end, 20, end - at);
      ret, val := DeserializeMem(size, TagOf(type_ / 16 % 16), mem, at + 20, end);
    } else if type_ % 16 == DATA_OBJPTR {
      if size == 0 {
        return E_RANGE, val;
      }
      if BUF_HEADER_SIZE + size > end - at {
        return E_FAULT, val;
      }
      PartIn(mem, at, end, 20, 20 + size);
      var a := new Buffer.From(mem[at + 20..at + 20 + size]);
      assert a.Contents() == a.whole;
      var obj;
      ret, obj := DeserializeRef(Word(mem, at + 16), a);
      val := Ref(obj);
    } else {
      ret := E_NOTSUP;
    }
  }

  /** The bytes are copied to a buffer of their size and converted there; the conversion is the sender's. */
  method DeserializeMem(size: nat, tag: Option<Tag>, mem: array<byte>, at: nat, end: nat)
    returns (ret: int, val: Buf)
    requires at <= end <= mem.Length
    ensures var r := DecodeMem(size, tag, mem[at..end]);
            if r.Ok? then ret == 0 && val == r.val else ret == r.code
  {
    hide NetOrder, Buffer.Valid;
    val := Empty;
    if size == 0 {
      return 0, val;
    }
    var m := new Buffer(size);
    var room := m.Size();
    if room == 0 {
      // the resize is refused and leaves no memory
      return E_FAULT, val;
    }
    if tag == None {
      return E_NOTSUP, val;
    }
    if size > end - at || (Width(tag.value) > 0 && Width(tag.value) != size) {
      return E_FAULT, val;
    }
    PartIn(mem, at, end, 0, size);
    SerializePrimeType(tag.value, mem[at..at + size], m, 0);
    var data := m.Read();
    assert data == NetOrder(tag.value, mem[at..at + size]);
    return 0, Mem(tag.value, data);
  }

  /** An object made by its class, then filled from a buffer of its own. */
  method DeserializeRef(clsid: nat, a: Buffer) returns (ret: int, obj: Obj)
    requires a.Valid()
    modifies a.data, a`whole
    ensures a.Valid()
    ensures var r := DecodeRef(clsid, old(a.Contents()));
            if r.Ok? then ret == 0 && obj == r.val else ret == r.code
    decreases a.tail - a.off, 6
  {
    hide ReadConfig, ReadVector, DecodeNums, DecodeBuf, Buffer.Valid;
    obj := Null;
    if clsid == CLSID_CONFIG {
      var db := new ConfigDb([]);
      ret := db.DeserializeFrom(a);
      obj := Config(db.props);
    } else if clsid == CLSID_OBJVEC {
      var vector := new ObjVector([]);
      ret := vector.DeserializeFrom(a);
      obj := Vector(vector.elems);
    } else if clsid == CLSID_INTVEC {
      var xs;
      ret, xs := DeserializeNums(clsid, 4, a);
      obj := Ints(xs);
    } else if clsid == CLSID_QWVEC {
      var xs;
      ret, xs := DeserializeNums(clsid, 8, a);
      obj := Qwords(xs);
    } else if clsid == CLSID_BUFFER {
      var buf;
      ret, buf := DeserializeBufFrom(a);
      obj := Boxed(buf);
    } else {
      ret := E_NOTSUP;
    }
  }

  /** The overload that takes a buffer. */
  method DeserializeBufFrom(a: Buffer) returns (ret: int, val: Buf)
    requires a.Valid()
    ensures var r := DecodeBuf(a.Contents()); if r.Ok? then ret == 0 && val == r.val else ret == r.code
    decreases a.tail - a.off, 5
  {
    hide DecodeBuf;
    val := Empty;
    var n := a.Size();
    if n == 0 {
      NoBuf();
      return E_FAULT, val;
    }
    a.Stored(a.off, a.tail);
    ret, val := DeserializeBuf(a.data, a.off, a.tail);
  }

  lemma NoBuf()
    ensures DecodeBuf([]) == Err(E_FAULT)
  {
  }

  /** An object made by its class, then filled from a place in memory. */
  method DeserializeElem(clsid: nat, mem: array<byte>, at: nat, end: nat, size: nat) returns (ret: int, obj: Obj)
    requires at <= end <= mem.Length
    modifies mem
    ensures var d := DecodeElem(clsid, old(mem[at..end]), size);
            && (if d.res.Ok? then ret == 0 && obj == d.res.val else ret == d.res.code)
            && mem[at..end] == d.mem
    ensures mem[..at] == old(mem[..at]) && mem[end..] == old(mem[end..])
    decreases end - at, 5
  {
    hide ReadConfig, ReadVector, DecodeBuf;
    obj := Null;
    if clsid == CLSID_CONFIG {
      var db := new ConfigDb([]);
      ret := db.Deserialize(mem, at, end, size);
      obj := Config(db.props);
    } else if clsid == CLSID_OBJVEC {
      var vector := new ObjVector([]);
      ret := vector.Deserialize(mem, at, end, size);
      obj := Vector(vector.elems);
    } else if clsid == CLSID_BUFFER {
      var buf;
      ret, buf := DeserializeBuf(mem, at, end);
      obj := Boxed(buf);
    } else {
      ret := E_NOTSUP;
    }
  }

  /** The same, `place` bytes into the memory of its vector, where its class id says what it is. */
  method DeserializeElemAt(mem: array<byte>, at: nat, end: nat, place: nat, size: nat) returns (ret: int, obj: Obj)
    requires at + place + 4 <= end <= mem.Length
    modifies mem
    ensures var m := old(mem[at..end]);
            var d := DecodeElem(U32(m, place), m[place..], size);
            && (if d.res.Ok? then ret == 0 && obj == d.res.val else ret == d.res.code)
            && mem[at..end] == m[..place] + d.mem
    ensures mem[..at] == old(mem[..at]) && mem[end..] == old(mem[end..])
    decreases end - at - place, 6
  {
    hide DecodeElem, U32, Word;
    ghost var c := mem[..];
    WordIn(mem, at, end, place);
    PartIn(mem, at, end, place, end - at);
    WholeArray(mem, at, end);
    WholeArray(mem, at + place, end);
    ret, obj := DeserializeElem(Word(mem, at + place), mem, at + place, end, size);
    WholeArray(mem, at, end);
    WholeArray(mem, at + place, end);
    PartChanged(c, mem[..], at, at + place, end);
  }

  method DeserializeNums(clsid: nat, w: nat, a: Buffer) returns (ret: int, xs: seq<nat>)
    requires a.Valid() && (w == 4 || w == 8)
    ensures var r := DecodeNums(clsid, w, a.Contents());
            if r.Ok? then ret == 0 && xs == r.val else ret == r.code
  {
    hide FromBE, ReadNums, Buffer.Valid;
    xs := [];
    var mem := a.Read();
    if |mem| < HEADER_SIZE {
      return E_INVAL, xs;
    }
    if U32(mem, 0) != clsid {
      return E_NOTSUP, xs;
    }
    ret := if mem[8] != 1 then E_NOTSUP else 0;
    if U32(mem, 4) > BUF_MAX_SIZE {
      return E_INVAL, xs;
    }
    var count := U32(mem, 12);
    if (U32(mem, 4) - 4) % UINT32_LIMIT / w != count {
      return E_INVAL, xs;
    }
    if HEADER_SIZE + w * count > |mem| {
      return E_FAULT, xs;
    }
    var i := 0;
    while i < count
      invariant i <= count && w * i <= w * count && xs == ReadNums(mem[HEADER_SIZE..], w, i)
    {
      assert w * (i + 1) == w * i + w;
      assert w * (i + 1) <= w * count;
      ReadNumsAppend(mem[HEADER_SIZE..], w, i);
      var elem := HEADER_SIZE + w * i;
      xs := xs + [FromBE(mem[elem..elem + w])];
      assert mem[HEADER_SIZE..][w * i..w * i + w] == mem[elem..elem + w];
      i := i + 1;
    }
  }

  // ---- There and back ----

  /** An object written to a new buffer and made again by its class. */
  method SendAndReceive(o: Obj, page: nat) returns (ret: int, back: Obj)
    requires Shaped(o) && Fits(o, page) && page >= MIN_PAGE && !o.Null?
    ensures !NullFree(o) ==> ret == E_FAULT
    ensures NullFree(o) ==> (ret == 0 && back == o <==> Friendly(o))
  {
    hide Buffer.Valid, Encodes, DecodeRef, Shaped, Fits, NullFree, Friendly;
    var buf := new Buffer(0);
    ret := SerializeObj(o, buf, page);
    back := Null;
    if ret == 0 {
      var bytes_ := buf.Read();
      RoundTrip(o, bytes_);
      ret, back := DeserializeRef(Clsid(o), buf);
    }
  }

  /** A vector read twice from the same memory: what the first reading converts, the second one refuses. */
  method DeserializeTwice(mem: array<byte>, at: nat, end: nat, size: nat, again: nat)
    returns (first: Status, second: Status)
    requires at <= end <= mem.Length
    modifies mem
    ensures first == 0 ==> second < 0
  {
    hide ReadVector;
    ghost var m := mem[at..end];
    var vector := new ObjVector([]);
    first := vector.Deserialize(mem, at, end, size);
    var other := new ObjVector([]);
    second := other.Deserialize(mem, at, end, again);
    if first == 0 {
      DecodedOnce(m, size, again);
    }
  }
}
