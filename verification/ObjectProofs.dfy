/** Which objects come back from every one of their encodings, and what a decoder makes of the others. */
module ObjectProofs {
  import opened Bytes
  import opened Buffers
  import opened ObjectMemory
  import opened Objects

  // ---- Leaves ----

  lemma {:induction false} StrCopyFixed(s: bytes)
    ensures StrCopy(s) == s <==> s == [] || IsString(s)
  {
    if s == [] {
    } else if s[0] == 0 {
      if IsString(s) {
        assert forall j :: 0 <= j < |s| ==> s[j] == 0;
      }
    } else if |s| > 1 {
      StrCopyFixed(s[1..]);
      StringTail(s);
      assert StrCopy(s)[1..] == StrCopy(s[1..]);
      assert s == [s[0]] + s[1..];
    }
  }

  lemma StringTail(s: bytes)
    requires |s| > 1 && s[0] != 0
    ensures IsString(s) <==> IsString(s[1..])
  {
    var t := s[1..];
    assert t[|t| - 1] == s[|s| - 1];
    if IsString(t) {
      forall i, j | 0 <= i < j < |s| && s[i] == 0 ensures s[j] == 0 {
        assert s[i] == t[i - 1] && s[j] == t[j - 1];
      }
    }
    if IsString(s) {
      forall i, j | 0 <= i < j < |t| && t[i] == 0 ensures t[j] == 0 {
        assert t[i] == s[i + 1] && t[j] == s[j + 1];
      }
    }
  }

  /** A string cut to size once stays as it is. */
  lemma {:induction false} StrCopyIdempotent(s: bytes)
    ensures StrCopy(StrCopy(s)) == StrCopy(s)
  {
    if s != [] && s[0] != 0 && |s| > 1 {
      StrCopyIdempotent(s[1..]);
      assert StrCopy(s)[1..] == StrCopy(s[1..]);
    }
  }

  /** The two conversions undo each other, except on a byte string tagged as text that is not one. */
  lemma NetOrderTwice(t: Tag, data: bytes)
    requires data != []
    ensures NetOrder(t, NetOrder(t, data)) == data <==> (t == String ==> IsString(data))
  {
    if t == String {
      StrCopyIdempotent(data);
      StrCopyFixed(data);
    }
  }

  lemma {:induction false} ReadNumBytes(w: nat, xs: seq<nat>, s: bytes)
    requires w > 0 && w * |xs| <= |s| && s[..w * |xs|] == NumBytes(w, xs)
    requires forall i :: 0 <= i < |xs| ==> xs[i] < Pow256(w)
    ensures ReadNums(s, w, |xs|) == xs
  {
    if xs != [] {
      var n := |xs|;
      assert w * n == w * (n - 1) + w;
      assert s[..w] == s[..w * n][..w] == BE(xs[0], w);
      FromBEOfBE(xs[0], w);
      assert s[w..][..w * (n - 1)] == s[..w * n][w..] == NumBytes(w, xs[1..]);
      ReadNumBytes(w, xs[1..], s[w..]);
    }
  }

  // ---- Fields ----

  /** A buffer header as the decoder reads it. */
  lemma BufHeader(b: Buf, bs: bytes, mem: bytes)
    requires BufEncodes(b, bs) && BufLen(b) <= UINT32_LIMIT && bs <= mem
    ensures U32(mem, 0) == CLSID_BUFFER && U32(mem, 4) == BufLen(b) - BUF_HEADER_SIZE
    ensures U32(mem, 12) == BufType(b) && U32(mem, 16) == if b.Ref? then Clsid(b.obj) else 0
    ensures mem[20..|bs|] == bs[20..]
  {
    hide BE, FromBE;
    assert BufType(b) < UINT32_LIMIT;
    InPrefix(bs, mem, 0, 4);
    InPrefix(bs, mem, 4, 8);
    InPrefix(bs, mem, 12, 16);
    InPrefix(bs, mem, 16, 20);
    InPrefix(bs, mem, 20, |bs|);
    FieldRead(mem, 0, CLSID_BUFFER);
    FieldRead(mem, 4, |bs| - BUF_HEADER_SIZE);
    FieldRead(mem, 12, BufType(b));
    FieldRead(mem, 16, if b.Ref? then Clsid(b.obj) else 0);
  }

  lemma MemRoundTrip(t: Tag, data: bytes, payload: bytes)
    requires BufShaped(Mem(t, data)) && NetOrder(t, data) <= payload
    ensures DecodeMem(|data|, TagOf(TagCode(t)), payload) == Ok(Mem(t, data))
            <==> BufFriendly(Mem(t, data))
  {
    hide StrCopy, IsString, Reversed;
    NetOrderTwice(t, data);
    assert payload[..|data|] == NetOrder(t, data);
  }

  // ---- Buffers, property maps, vectors ----

  /** A buffer is read back exactly when it is friendly, whatever bytes follow it. */
  lemma {:induction false} BufRoundTrip(b: Buf, bs: bytes, mem: bytes)
    requires BufEncodes(b, bs) && BufShaped(b) && bs <= mem
    ensures DecodeBuf(mem) == Ok(b) <==> BufFriendly(b)
    decreases b
  {
    hide BE, FromBE, Len, DecodeBuf, DecodeRef, DecodeMem, Encodes, Shaped, Friendly, U32;
    assert BufLen(b) <= 20 + MAX_BYTES_PER_BUFFER by {
      ShapedLen(b);
    }
    BufHeader(b, bs, mem);
    BufStart(mem);
    assert mem[20..][..|bs| - 20] == mem[20..|bs|];
    match b
    case Empty => DecodeNothing(mem[20..]);
    case Mem(t, data) => MemRoundTrip(t, data, mem[20..]);
    case Ref(o) =>
      EncodingNotEmpty(o, bs[20..]);
      RoundTrip(o, bs[20..]);
  }

  lemma ShapedLen(b: Buf)
    requires BufShaped(b)
    ensures BufLen(b) <= BUF_HEADER_SIZE + MAX_BYTES_PER_BUFFER
  {
  }

  lemma EncodingNotEmpty(o: Obj, bs: bytes)
    requires Encodes(o, bs)
    ensures bs != []
  {
    hide BE;
  }

  lemma DecodeNothing(payload: bytes)
    ensures DecodeMem(0, TagOf(0), payload) == Ok(Empty)
  {
  }

  /** What the checks of the header leave to decide. */
  lemma BufStart(mem: bytes)
    requires |mem| >= BUF_HEADER_SIZE && U32(mem, 0) == CLSID_BUFFER && U32(mem, 4) <= MAX_BYTES_PER_BUFFER
    ensures U32(mem, 12) % 16 == DATA_MEM ==>
              DecodeBuf(mem) == DecodeMem(U32(mem, 4), TagOf(U32(mem, 12) / 16 % 16), mem[20..])
    ensures U32(mem, 12) % 16 == DATA_OBJPTR && 0 < U32(mem, 4) <= |mem| - BUF_HEADER_SIZE ==>
              DecodeBuf(mem) == Wrap(DecodeRef(U32(mem, 16), mem[20..20 + U32(mem, 4)]), o => Ref(o))
  {
    hide DecodeMem, DecodeRef, FromBE;
  }

  /** An object in a buffer of its own is read back from any of its encodings exactly when it is friendly. */
  lemma {:induction false} RoundTrip(o: Obj, bs: bytes)
    requires Encodes(o, bs) && Shaped(o)
    ensures DecodeRef(Clsid(o), bs) == Ok(o) <==> Friendly(o)
    decreases o, 1
  {
    hide ConfigEncodes, VectorEncodes, BufEncodes, NumsEncode, BufFriendly, ElemFriendly, Offset, PropOffset, BufLen;
    hide DecodeConfig, DecodeVector, DecodeNums, DecodeBuf, PropsShaped, ElemsShaped, BufShaped;
    match o
    case Config(ps) => ConfigRoundTrip(ps, bs, bs, |bs|);
    case Vector(es) => VectorRoundTrip(es, bs, bs, |bs|);
    case Ints(xs) =>
      Pow256Values();
      NumsRoundTrip(CLSID_INTVEC, 4, xs, bs);
    case Qwords(xs) => NumsRoundTrip(CLSID_QWVEC, 8, xs, bs);
    case Boxed(b) => BufRoundTrip(b, bs, bs);
  }

  /** The same for an object inside a vector; only its own bytes are touched. */
  lemma {:induction false} ElemRoundTrip(o: Obj, bs: bytes, mem: bytes, size: nat)
    requires Encodes(o, bs) && Shaped(o) && bs <= mem && |bs| <= size < UINT32_LIMIT
    ensures DecodeElem(Clsid(o), mem, size).res == Ok(o)
            <==> ElemFriendly(o) && (o.Vector? ==> size < INT32_LIMIT)
    ensures DecodeElem(Clsid(o), mem, size).mem[|bs|..] == mem[|bs|..]
    decreases o, 1
  {
    hide ConfigEncodes, VectorEncodes, BufEncodes, NumsEncode, BufFriendly, Offset, PropOffset, BufLen;
    hide DecodeConfig, DecodeVector, DecodeBuf, PropsShaped, ElemsShaped, BufShaped;
    match o
    case Config(ps) => ConfigRoundTrip(ps, bs, mem, size);
    case Vector(es) => VectorRoundTrip(es, bs, mem, size);
    case Ints(xs) =>
    case Qwords(xs) =>
    case Boxed(b) => BufRoundTrip(b, bs, mem);
  }

  lemma {:induction false} ConfigRoundTrip(ps: seq<Prop>, bs: bytes, mem: bytes, size: nat)
    requires ConfigEncodes(ps, bs) && PropsShaped(ps) && |bs| <= MAX_BYTES_PER_BUFFER
    requires bs <= mem && |bs| <= size < UINT32_LIMIT
    ensures DecodeConfig(mem, size) == Ok(ps)
            <==> |ps| <= CFGDB_MAX_ITEM && forall i :: 0 <= i < |ps| ==> BufFriendly(ps[i].val)
    decreases ps, 1
  {
    hide BE, FromBE, DecodeProps, DecodeConfig, BufFriendly, PropAt, PropShaped, PropLen, PropOffset, BufLen;
    hide Header, U32;
    ConfigHeader(ps, bs, mem);
    ConfigStart(mem, size);
    if |ps| <= CFGDB_MAX_ITEM {
      assert [] + ps[0..] == ps;
      PropsRoundTrip(ps, bs, mem, size, 0, []);
    }
  }

  /** What the checks of the header leave to decide. */
  lemma ConfigStart(mem: bytes, size: nat)
    requires HEADER_SIZE <= |mem| && 0 < size
    requires U32(mem, 0) == CLSID_CONFIG && U32(mem, 4) + BASE_SIZE <= size && U32(mem, 4) <= CFGDB_MAX_SIZE
    ensures DecodeConfig(mem, size) ==
            if U32(mem, 12) > CFGDB_MAX_ITEM then Err(E_INVAL)
            else DecodeProps(mem, size, HEADER_SIZE, U32(mem, 12), [])
  {
    hide ReadProps, FromBE;
  }

  lemma ConfigHeader(ps: seq<Prop>, bs: bytes, mem: bytes)
    requires |bs| == HEADER_SIZE + PropOffset(ps, |ps|) && ConfigHead(|ps|, bs)
    requires |bs| <= MAX_BYTES_PER_BUFFER && bs <= mem
    ensures U32(mem, 0) == CLSID_CONFIG && U32(mem, 4) == |bs| - BASE_SIZE && U32(mem, 12) == |ps|
  {
    hide BE, FromBE;
    PropOffsetAtLeast(ps, |ps|);
    var h := Header(CLSID_CONFIG, |bs| - BASE_SIZE) + BE(|ps|, 4);
    InPrefix(bs, mem, 0, 16);
    assert mem[..16] == h;
    assert mem[0..4] == h[0..4] && mem[4..8] == h[4..8] && mem[12..16] == h[12..16];
    FieldRead(mem, 0, CLSID_CONFIG);
    FieldRead(mem, 4, |bs| - BASE_SIZE);
    FieldRead(mem, 12, |ps|);
  }

  lemma {:induction false} PropOffsetAtLeast(ps: seq<Prop>, i: nat)
    requires i <= |ps|
    ensures PropOffset(ps, i) >= 28 * i
  {
    if i > 0 {
      PropOffsetAtLeast(ps, i - 1);
    }
  }

  lemma {:induction false} PropOffsetGrows(ps: seq<Prop>, i: nat)
    requires i < |ps|
    ensures PropOffset(ps, i + 1) == PropOffset(ps, i) + PropLen(ps[i]) <= PropOffset(ps, |ps|)
    decreases |ps| - i
  {
    if i + 1 < |ps| {
      PropOffsetGrows(ps, i + 1);
    }
  }

  lemma PropsEnd(mem: bytes, size: nat, loc: nat, n: nat, acc: seq<Prop>)
    requires n == 0
    ensures DecodeProps(mem, size, loc, n, acc) == Ok(acc)
  {
    hide DecodeBuf;
  }

  /** One round of the decoder's loop over well-formed entries. */
  lemma PropsStep(mem: bytes, size: nat, loc: nat, n: nat, acc: seq<Prop>)
    requires loc + 8 <= |mem| && n > 0
    requires loc + 8 + U32(mem, loc + 4) <= size < UINT32_LIMIT
    requires forall k :: 0 <= k < |acc| ==> acc[k].key != U32(mem, loc)
    ensures var d := DecodeBuf(mem[loc + 8..]);
            DecodeProps(mem, size, loc, n, acc) ==
            if d.Err? then Err(d.code)
            else DecodeProps(mem, size, loc + 8 + U32(mem, loc + 4), n - 1,
                             acc + [Prop(U32(mem, loc), d.val)])
  {
    hide DecodeBuf, FromBE;
  }

  /** Entries read so far with the right keys: the rest come back exactly when all of them are friendly. */
  lemma {:induction false} PropsRoundTrip(ps: seq<Prop>, bs: bytes, mem: bytes, size: nat, i: nat, acc: seq<Prop>)
    requires ConfigEncodes(ps, bs) && PropsShaped(ps) && |bs| <= MAX_BYTES_PER_BUFFER
    requires bs <= mem && |bs| <= size < UINT32_LIMIT
    requires |acc| == i <= |ps| && forall k :: 0 <= k < i ==> acc[k].key == ps[k].key
    ensures var r := DecodeProps(mem, size, HEADER_SIZE + PropOffset(ps, i), |ps| - i, acc);
            && (r.Ok? ==> |r.val| == |ps| && r.val[..i] == acc)
            && (r == Ok(acc + ps[i..]) <==> forall k :: i <= k < |ps| ==> BufFriendly(ps[k].val))
    decreases ps, 0, |ps| - i
  {
    hide BE, FromBE, PropAt, BufFriendly, BufShaped, DecodeBuf, DecodeProps, BufLen, PropOffset, U32;
    if i < |ps| {
      var loc := HEADER_SIZE + PropOffset(ps, i);
      PropOffsetGrows(ps, i);
      PropRoundTrip(ps[i], bs, mem, loc);
      var d := DecodeBuf(mem[loc + 8..]);
      PropsStep(mem, size, loc, |ps| - i, acc);
      if d.Ok? {
        var next := acc + [Prop(ps[i].key, d.val)];
        PropsRoundTrip(ps, bs, mem, size, i + 1, next);
        var r := DecodeProps(mem, size, loc + PropLen(ps[i]), |ps| - i - 1, next);
        PrefixSplit(r, acc, Prop(ps[i].key, d.val), ps, i);
      }
    } else {
      assert acc + ps[i..] == acc;
      PropsEnd(mem, size, HEADER_SIZE + PropOffset(ps, i), |ps| - i, acc);
    }
  }

  /** One entry at its place: the key, the padded size, and the value when it is friendly. */
  lemma {:induction false} PropRoundTrip(p: Prop, bs: bytes, mem: bytes, loc: nat)
    requires PropAt(p, bs, loc) && PropShaped(p) && bs <= mem && |bs| <= MAX_BYTES_PER_BUFFER
    ensures loc + 8 <= |mem| && U32(mem, loc) == p.key && U32(mem, loc + 4) == AlignDword(BufLen(p.val))
    ensures DecodeBuf(mem[loc + 8..]) == Ok(p.val) <==> BufFriendly(p.val)
    decreases p
  {
    hide BE, FromBE, BufEncodes, BufFriendly, BufShaped, DecodeBuf, BufLen;
    InPrefix(bs, mem, loc, loc + 4);
    InPrefix(bs, mem, loc + 4, loc + 8);
    FieldRead(mem, loc, p.key);
    FieldRead(mem, loc + 4, AlignDword(BufLen(p.val)));
    BufRoundTrip(p.val, bs[loc + 8..loc + 8 + BufLen(p.val)], mem[loc + 8..]);
  }

  lemma {:induction false} VectorRoundTrip(es: seq<Obj>, bs: bytes, mem: bytes, size: nat)
    requires VectorEncodes(es, bs) && ElemsShaped(es) && |bs| <= MAX_BYTES_PER_BUFFER
    requires bs <= mem && |bs| <= size < UINT32_LIMIT
    ensures DecodeVector(mem, size).res == Ok(es)
            <==> Swapped(es) && size < INT32_LIMIT && forall i :: 0 <= i < |es| ==> ElemFriendly(es[i])
    ensures DecodeVector(mem, size).mem[|bs|..] == mem[|bs|..]
    decreases es, 1
  {
    hide BE, FromBE, DecodeElems, DecodeVector, ElemFriendly, ElemAt, Shaped, Len, Offset, U32, H32, Ntoh, Pending;
    VectorStart(mem, size);
    if Swapped(es) && size < INT32_LIMIT {
      VectorHeader(es, bs, mem);
      PendingStart(es, bs, mem);
      assert [] + es[0..] == es;
      ElemsRoundTrip(es, Ntoh(mem), size, 0, []);
    } else if Swapped(es) {
      VectorHeader(es, bs, mem);
      PendingStart(es, bs, mem);
    } else {
      HostOrderHeader(es, bs, mem);
      NtohHeader(mem);
      SameEnds(mem, Ntoh(mem), HEADER_SIZE + TableSize(mem), |bs|);
    }
  }

  /** What the checks of the header leave to decide. */
  lemma VectorStart(mem: bytes, size: nat)
    requires HEADER_SIZE <= |mem| && HEADER_SIZE <= size
    ensures U32(mem, 0) != CLSID_OBJVEC || INT32_LIMIT <= size < UINT32_LIMIT ==>
              DecodeVector(mem, size).res.Err? && DecodeVector(mem, size).mem == Ntoh(mem)
    ensures var count := U32(mem, 12);
            U32(mem, 0) == CLSID_OBJVEC && 0 < count <= MAX_ELEM_CONTAINER && U32(mem, 4) + 4 <= size
            && HEADER_SIZE + 4 * count <= SignedSize(size) && HEADER_SIZE + 4 * count <= |mem| ==>
              DecodeVector(mem, size) == DecodeElems(Ntoh(mem), size, count - 1, 0, [])
  {
    hide ReadElems, FromBE, Ntoh;
  }

  /** Too many elements leave the header in host order, and no decoder recognizes its class. */
  lemma HostOrderHeader(es: seq<Obj>, bs: bytes, mem: bytes)
    requires VectorHead(es, bs) && !Swapped(es) && bs <= mem
    ensures U32(mem, 0) != CLSID_OBJVEC
  {
    hide BE, FromBE;
    InPrefix(bs, mem, 0, 4);
    HostOrderClsid();
  }

  /** Every encoding starts with the class of the object. */
  lemma StartsWithClsid(o: Obj, bs: bytes)
    requires Encodes(o, bs)
    ensures |bs| >= HEADER_SIZE
    ensures bs[..4] == if o.Vector? then Field(CLSID_OBJVEC, Swapped(o.elems)) else BE(Clsid(o), 4)
  {
    match o
    case Config(_) =>
      assert bs[..4] == bs[..16][..4];
    case _ =>
  }

  /** One offset of the table. */
  lemma TableRead(es: seq<Obj>, bs: bytes, i: nat)
    requires VectorTable(es, bs) && Swapped(es) && |bs| == Place(es, |es|) <= MAX_BYTES_PER_BUFFER && i <= |es|
    ensures U32(bs, 16 + 4 * i) == Offset(es, i) <= Offset(es, |es|)
  {
    hide VectorTable, BE, FromBE, Offset, Len, U32;
    TableSlot(es, bs, i);
    OffsetAtMost(es, i);
    FieldRead(bs, 16 + 4 * i, Offset(es, i));
  }

  /** The class and the size of the next element as the decoder finds them from the table. */
  lemma ElemRead(es: seq<Obj>, i: nat, mem: bytes)
    requires i < |es| && Pending(es, i, mem)
    ensures H32(mem, 16 + 4 * i) == Offset(es, i) && H32(mem, 20 + 4 * i) == Offset(es, i + 1)
    ensures Offset(es, i + 1) == Offset(es, i) + AlignDword(Len(es[i]))
    ensures var at := Place(es, i);
            && at + 4 <= at + AlignDword(Len(es[i])) <= Place(es, |es|) && ElemAt(es[i], mem, at)
            && (U32(mem, at) == Clsid(es[i]) || UnknownClsid(es[i], U32(mem, at)))
  {
    hide Encodes, Len, Offset, U32, H32, UnknownClsid;
    var at := Place(es, i);
    OffsetGrows(es, i);
    assert HostSlot(es, mem, i) && HostSlot(es, mem, i + 1);
    assert ElemAt(es[i], mem, at);
    ElemClsid(es[i], mem[at..at + Len(es[i])], mem, at);
  }

  /** The class of a vector of too many elements, which is sent in the wrong byte order. */
  predicate UnknownClsid(o: Obj, clsid: nat) {
    o.Vector? && !Swapped(o.elems) && clsid == 0xAB08_0000
  }

  lemma ElemClsid(o: Obj, bs: bytes, mem: bytes, at: nat)
    requires Encodes(o, bs) && at <= |mem| && bs <= mem[at..]
    ensures 4 <= |bs| && at + 4 <= |mem|
    ensures U32(mem, at) == Clsid(o) || UnknownClsid(o, U32(mem, at))
  {
    hide BE, FromBE, Encodes, Len;
    StartsWithClsid(o, bs);
    assert mem[at..at + 4] == bs[..4];
    if o.Vector? && !Swapped(o.elems) {
      HostOrderClsid();
    } else {
      FieldRead(mem, at, Clsid(o));
    }
  }

  lemma HostOrderClsid()
    ensures FromBE(Reversed(BE(CLSID_OBJVEC, 4))) == 0xAB08_0000
  {
    var f := Reversed(BE(CLSID_OBJVEC, 4));
    assert BE(0x8, 2) == [0, 8];
    assert BE(0x8AB, 3) == [0, 8, 0xAB];
    assert BE(CLSID_OBJVEC, 4) == [0, 0, 0x08, 0xAB];
    assert f == [0xAB, 0x08, 0, 0];
    assert f[..1] == [0xAB] && f[..2][..1] == f[..1] && f[..3][..2] == f[..2];
    assert FromBE(f[..1]) == 0xAB;
    assert FromBE(f[..2]) == 0xAB08;
    assert FromBE(f[..3]) == 0xAB_0800;
  }

  lemma ElemsEnd(mem: bytes, size: nat, n: nat, i: nat, acc: seq<Obj>)
    requires i == n && PayloadStart(n) <= |mem|
    ensures DecodeElems(mem, size, n, i, acc) == Decoded(Ok(acc), mem)
  {
    hide DecodeElem;
  }

  /** One round of the decoder's loop over well-formed elements. */
  lemma ElemsStep(mem: bytes, size: nat, n: nat, i: nat, acc: seq<Obj>, at: nat, len: nat)
    requires i < n && PayloadStart(n) <= |mem| && at == PayloadStart(n) + H32(mem, 16 + 4 * i)
    requires H32(mem, 20 + 4 * i) == H32(mem, 16 + 4 * i) + len
    requires at < SignedSize(size) && at + 4 <= |mem| && len < UINT32_LIMIT
    ensures var d := DecodeElem(U32(mem, at), mem[at..], len);
            DecodeElems(mem, size, n, i, acc) ==
            if d.res.Err? then Decoded(Err(d.res.code), mem[..at] + d.mem)
            else DecodeElems(mem[..at] + d.mem, size, n, i + 1, acc + [d.res.val])
  {
    hide DecodeElem, FromBE;
  }

  /** One element at its place. */
  lemma {:induction false} ElemInPlace(o: Obj, mem: bytes, at: nat)
    requires ElemAt(o, mem, at) && Shaped(o) && at + 4 <= |mem|
    requires U32(mem, at) == Clsid(o) || UnknownClsid(o, U32(mem, at))
    ensures var d := DecodeElem(U32(mem, at), mem[at..], AlignDword(Len(o)));
            && (d.res == Ok(o) <==> ElemFriendly(o))
            && OnlyWithin(at, at + Len(o), mem, mem[..at] + d.mem)
    decreases o, 2
  {
    hide FromBE, Encodes, Len, DecodeConfig, DecodeVector, DecodeBuf, U32, OnlyWithin;
    assert Len(o) <= MAX_BYTES_PER_BUFFER;
    var bs := mem[at..at + Len(o)];
    ElemRoundTrip(o, bs, mem[at..], AlignDword(Len(o)));
    var d := DecodeElem(U32(mem, at), mem[at..], AlignDword(Len(o)));
    assert d.mem[Len(o)..] == mem[at..][Len(o)..];
    WithinElem(mem, at, Len(o), d.mem);
  }

  lemma WithinElem(mem: bytes, at: nat, n: nat, rest: bytes)
    requires at + n <= |mem| && |rest| == |mem| - at && rest[n..] == mem[at..][n..]
    ensures OnlyWithin(at, at + n, mem, mem[..at] + rest)
  {
    var after := mem[..at] + rest;
    assert after[at + n..] == rest[n..] && mem[at..][n..] == mem[at + n..];
    assert after[..at] == mem[..at];
  }

  /** Elements read so far: the rest come back exactly when all of them are friendly. */
  lemma {:induction false} ElemsRoundTrip(es: seq<Obj>, mem: bytes, size: nat, i: nat, acc: seq<Obj>)
    requires ElemsShaped(es) && |acc| == i <= |es| && Pending(es, i, mem)
    requires Place(es, |es|) <= MAX_BYTES_PER_BUFFER && Place(es, |es|) <= size < INT32_LIMIT
    ensures var d := DecodeElems(mem, size, |es|, i, acc);
            && (d.res.Ok? ==> |d.res.val| == |es| && d.res.val[..i] == acc)
            && (d.res == Ok(acc + es[i..]) <==> forall k :: i <= k < |es| ==> ElemFriendly(es[k]))
            && d.mem[Place(es, |es|)..] == mem[Place(es, |es|)..]
    decreases es, 0, |es| - i
  {
    hide FromBE, Encodes, ElemAt, ElemFriendly, Shaped, DecodeElem, DecodeElems, Len, Offset, U32, H32;
    hide Pending, OnlyWithin, UnknownClsid;
    PendingRoom(es, i, mem);
    if i < |es| {
      var at, len := Place(es, i), AlignDword(Len(es[i]));
      ElemRead(es, i, mem);
      ElemInPlace(es[i], mem, at);
      ElemsStep(mem, size, |es|, i, acc, at, len);
      var d := DecodeElem(U32(mem, at), mem[at..], len);
      var after := mem[..at] + d.mem;
      EndKept(at, at + Len(es[i]), mem, after, Place(es, |es|));
      if d.res.Ok? {
        PendingStep(es, i, mem, after);
        ElemsRoundTrip(es, after, size, i + 1, acc + [d.res.val]);
        PrefixSplit(DecodeElems(after, size, |es|, i + 1, acc + [d.res.val]).res, acc, d.res.val, es, i);
      }
    } else {
      assert acc + es[i..] == acc;
      ElemsEnd(mem, size, |es|, i, acc);
    }
  }

  lemma PendingRoom(es: seq<Obj>, i: nat, mem: bytes)
    requires i <= |es| && Pending(es, i, mem)
    ensures Place(es, |es|) <= |mem|
  {
    hide Offset, ElemAt, HostSlot;
  }

  lemma EndKept(lo: nat, hi: nat, c: bytes, d: bytes, end: nat)
    requires OnlyWithin(lo, hi, c, d) && hi <= end <= |c|
    ensures |d| == |c| && d[end..] == c[end..]
  {
    SameEnds(c, d, hi, end);
  }

  /** A result that begins with `acc` and one more element, against a list it should spell out. */
  lemma PrefixSplit<T>(r: Result<seq<T>>, acc: seq<T>, x: T, all: seq<T>, i: nat)
    requires i < |all| && |acc| == i
    requires r.Ok? ==> |r.val| == |all| && r.val[..i + 1] == acc + [x]
    ensures r.Ok? ==> r.val[..i] == acc
    ensures r == Ok(acc + all[i..]) <==> x == all[i] && r == Ok(acc + [x] + all[i + 1..])
  {
    if r.Ok? {
      assert r.val[i] == r.val[..i + 1][i] == x;
      assert r.val[..i] == r.val[..i + 1][..i] == acc;
      assert (acc + all[i..])[i] == all[i];
      assert acc + [all[i]] + all[i + 1..] == acc + all[i..];
    }
  }

  lemma NumsRoundTrip(clsid: nat, w: nat, xs: seq<nat>, bs: bytes)
    requires NumsEncode(clsid, w, xs, bs) && clsid < UINT32_LIMIT && (w == 4 || w == 8)
    requires |bs| <= MAX_BYTES_PER_BUFFER && forall i :: 0 <= i < |xs| ==> xs[i] < Pow256(w)
    ensures DecodeNums(clsid, w, bs) == Ok(xs)
  {
    hide BE, FromBE, NumBytes, ReadNums;
    var size := w * |xs| + 4;
    NumBytesLen(w, xs);
    assert bs[0..4] == BE(clsid, 4) && bs[4..8] == BE(size, 4) && bs[12..16] == BE(|xs|, 4);
    FieldRead(bs, 0, clsid);
    FieldRead(bs, 4, size);
    FieldRead(bs, 12, |xs|);
    assert (size - 4) / w == |xs|;
    assert bs[16..][..w * |xs|] == NumBytes(w, xs);
    ReadNumBytes(w, xs, bs[16..]);
  }

  // ---- The offset table, and what fails ----

  /** The part of an encoded vector between two neighbouring offsets, which starts with an element. */
  ghost predicate CutAt(es: seq<Obj>, bs: bytes, i: nat)
    requires i < |es| && PayloadStart(|es|) <= |bs|
  {
    var pos, next := U32(bs, 16 + 4 * i), U32(bs, 20 + 4 * i);
    && pos % 4 == 0 && pos < next && next - pos == AlignDword(Len(es[i]))
    && ElemAt(es[i], bs, PayloadStart(|es|) + pos)
  }

  /** The table of an encoded vector cuts the whole payload into the encodings of the elements. */
  lemma OffsetTable(es: seq<Obj>, bs: bytes)
    requires VectorEncodes(es, bs) && Swapped(es) && |bs| <= MAX_BYTES_PER_BUFFER
    ensures U32(bs, 16) == 0 && PayloadStart(|es|) + U32(bs, 16 + 4 * |es|) == |bs|
    ensures forall i :: 0 <= i < |es| ==> CutAt(es, bs, i)
  {
    hide VectorEncodes, VectorTable, VectorHead, ElemAt, Len, U32, Offset;
    VectorParts(es, bs);
    TableRead(es, bs, |es|);
    TableRead(es, bs, 0);
    forall i | 0 <= i < |es| ensures CutAt(es, bs, i) {
      CutOne(es, bs, i);
    }
  }

  lemma CutOne(es: seq<Obj>, bs: bytes, i: nat)
    requires VectorTable(es, bs) && Swapped(es) && |bs| == PayloadStart(|es|) + Offset(es, |es|) <= MAX_BYTES_PER_BUFFER
    requires i < |es| && ElemAt(es[i], bs, PayloadStart(|es|) + Offset(es, i))
    ensures CutAt(es, bs, i)
  {
    hide VectorTable, Encodes, Len, U32, Offset, BE, FromBE;
    var at := PayloadStart(|es|) + Offset(es, i);
    TableRead(es, bs, i);
    TableRead(es, bs, i + 1);
    OffsetGrows(es, i);
    StartsWithClsid(es[i], bs[at..at + Len(es[i])]);
  }

  /** An integer vector put directly into an object vector is written, and never read back. */
  lemma IntVectorInVector(xs: seq<nat>, bs: bytes)
    requires VectorEncodes([Ints(xs)], bs) && |bs| <= MAX_BYTES_PER_BUFFER
    ensures DecodeRef(CLSID_OBJVEC, bs) == Err(E_NOTSUP)
  {
    hide VectorEncodes, Encodes, Len, U32, H32, Offset, DecodeVector, DecodeElems, ElemAt, Pending, Ntoh;
    var es := [Ints(xs)];
    VectorParts(es, bs);
    VectorHeader(es, bs, bs);
    VectorStart(bs, |bs|);
    PendingStart(es, bs, bs);
    IntElem(es, 0, Ntoh(bs), |bs|, []);
  }

  /** The loop ends at the first integer vector. */
  lemma IntElem(es: seq<Obj>, i: nat, mem: bytes, size: nat, acc: seq<Obj>)
    requires i < |es| && es[i].Ints? && Pending(es, i, mem)
    requires Place(es, |es|) <= size <= MAX_BYTES_PER_BUFFER
    ensures DecodeElems(mem, size, |es|, i, acc).res == Err(E_NOTSUP)
  {
    hide Encodes, Len, U32, H32, Offset, DecodeVector, DecodeElems, ElemAt, Pending;
    var at, len := Place(es, i), AlignDword(Len(es[i]));
    PendingRoom(es, i, mem);
    ElemRead(es, i, mem);
    ElemsStep(mem, size, |es|, i, acc, at, len);
  }

  /** An empty integer vector in an object vector, as it is written: a case of the lemma above. */
  lemma IntVectorSample()
    ensures var elem := Header(CLSID_INTVEC, 4) + BE(0, 4);
            var bs := Header(CLSID_OBJVEC, 28) + BE(2, 4) + (BE(0, 4) + BE(16, 4)) + elem;
            Encodes(Vector([Ints([])]), bs) && DecodeRef(CLSID_OBJVEC, bs) == Err(E_NOTSUP)
  {
    hide BE, FromBE, DecodeRef;
    var es, elem := [Ints([])], Header(CLSID_INTVEC, 4) + BE(0, 4);
    var bs := Header(CLSID_OBJVEC, 28) + BE(2, 4) + (BE(0, 4) + BE(16, 4)) + elem;
    assert Offset(es, 0) == 0 && Offset(es, 1) == 16;
    assert bs[..4] == BE(CLSID_OBJVEC, 4) && bs[4..8] == BE(28, 4) && bs[12..16] == BE(2, 4);
    assert VectorHead(es, bs);
    assert bs[16..20] == BE(0, 4) && bs[20..24] == BE(16, 4);
    assert VectorTable(es, bs);
    assert bs[24..40] == elem;
    assert Encodes(Ints([]), elem);
    assert ElemAt(es[0], bs, 24);
    IntVectorInVector([], bs);
  }

  /** Decoding a vector leaves its own header in host order, and memory in that state is not accepted again. */
  lemma DecodedOnce(mem: bytes, size: nat, again: nat)
    requires DecodeVector(mem, size).res.Ok?
    ensures DecodeVector(DecodeVector(mem, size).mem, again).res.Err?
  {
    hide DecodeVector, BE, FromBE, Ntoh;
    var after := DecodeVector(mem, size).mem;
    VectorOk(mem, size);
    NtohHeader(mem);
    assert after[0..4] == after[..16][0..4] && Ntoh(mem)[0..4] == Ntoh(mem)[..16][0..4];
    HostOrderAfter(mem, after);
    if again >= HEADER_SIZE {
      VectorStart(after, again);
    } else {
      TooSmall(after, again);
    }
  }

  /** A vector is only accepted with its class, and what it converts first it does not touch again. */
  lemma VectorOk(mem: bytes, size: nat)
    requires DecodeVector(mem, size).res.Ok?
    ensures |mem| >= HEADER_SIZE && U32(mem, 0) == CLSID_OBJVEC
    ensures DecodeVector(mem, size).mem[..16] == Ntoh(mem)[..16]
  {
    hide ReadElems, FromBE, Ntoh;
    var n := U32(mem, 12) - 1;
    ElemsKeepTable(Ntoh(mem), size, n, 0, []);
    var d := DecodeElems(Ntoh(mem), size, n, 0, []);
    assert d.mem[..16] == d.mem[..PayloadStart(n)][..16];
    assert Ntoh(mem)[..16] == Ntoh(mem)[..PayloadStart(n)][..16];
  }

  lemma {:induction false} ElemsKeepTable(mem: bytes, size: nat, n: nat, i: nat, acc: seq<Obj>)
    requires i <= n && PayloadStart(n) <= |mem|
    ensures DecodeElems(mem, size, n, i, acc).mem[..PayloadStart(n)] == mem[..PayloadStart(n)]
    decreases n - i
  {
    hide DecodeElem, FromBE;
    if i < n {
      var pos, next := H32(mem, 16 + 4 * i), H32(mem, 20 + 4 * i);
      var at := PayloadStart(n) + pos;
      if at < SignedSize(size) && at + 4 <= |mem| {
        var d := DecodeElem(U32(mem, at), mem[at..], (next - pos) % UINT32_LIMIT);
        var after := mem[..at] + d.mem;
        assert after[..PayloadStart(n)] == mem[..PayloadStart(n)];
        if d.res.Ok? {
          ElemsKeepTable(after, size, n, i + 1, acc + [d.res.val]);
        }
      }
    }
  }

  lemma HostOrderAfter(mem: bytes, after: bytes)
    requires |mem| >= 4 && U32(mem, 0) == CLSID_OBJVEC
    requires |after| >= 4 && after[0..4] == Reversed(mem[..4])
    ensures U32(after, 0) == 0xAB08_0000
  {
    hide BE, FromBE;
    assert mem[0..4] == mem[..4];
    BEOfFromBE(mem[..4]);
    HostOrderClsid();
  }

  lemma TooSmall(mem: bytes, size: nat)
    requires size < HEADER_SIZE
    ensures DecodeVector(mem, size).res.Err?
  {
  }

  lemma VectorParts(es: seq<Obj>, bs: bytes)
    requires VectorEncodes(es, bs)
    ensures VectorHead(es, bs) && VectorTable(es, bs) && |bs| == PayloadStart(|es|) + Offset(es, |es|)
    ensures forall i :: 0 <= i < |es| ==> ElemAt(es[i], bs, PayloadStart(|es|) + Offset(es, i))
  {
    hide VectorHead, VectorTable, ElemAt, Offset;
  }
}
