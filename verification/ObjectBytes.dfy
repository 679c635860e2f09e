/** What the object format looks like byte by byte, and what has to hold of memory that is accepted. */
module ObjectBytes {
  import opened Bytes
  import opened Buffers
  import opened ObjectMemory
  import opened Objects
  import opened ObjectProofs

  // ---- Typed memory ----

  /** The number that a little-endian host has in memory. */
  function HostValue(s: bytes): nat {
    if s == [] then 0 else s[0] as nat + 256 * HostValue(s[1..])
  }

  lemma {:induction false} ReversedValue(s: bytes)
    ensures FromBE(Reversed(s)) == HostValue(s)
  {
    if s != [] {
      var r := Reversed(s);
      ReversedValue(s[1..]);
      assert r[..|r| - 1] == Reversed(s[1..]);
    }
  }

  predicate IsNumber(t: Tag) {
    t in {Byte, UInt16, Tag.UInt32, UInt64, Float, Double}
  }

  /** A number is sent with its bytes in network order; what a peer reads from them is the number in memory. */
  lemma NumberInNetOrder(t: Tag, data: bytes)
    requires IsNumber(t)
    ensures FromBE(NetOrder(t, data)) == HostValue(data)
    ensures forall i :: 0 <= i < |data| ==> NetOrder(t, data)[i] == data[|data| - 1 - i]
  {
    ReversedValue(data);
  }

  /** How many bytes a tag goes with, and the code of the tag in the type field. */
  lemma TagFacts(t: Tag, data: bytes)
    ensures BufShaped(Mem(t, data)) <==>
            0 < |data| <= MAX_BYTES_PER_BUFFER && match t
                                                  case Byte => |data| == 1
                                                  case UInt16 => |data| == 2
                                                  case UInt32 | Float => |data| == 4
                                                  case UInt64 | Double => |data| == 8
                                                  case None_ | String | ByteArr => true
    ensures t in {None_, ByteArr} ==> NetOrder(t, data) == data
    ensures BufType(Mem(t, data)) == match t
                                     case None_ => 0x00 case Byte => 0x10 case UInt16 => 0x20 case UInt32 => 0x30
                                     case UInt64 => 0x40 case Float => 0x50 case Double => 0x60
                                     case String => 0x70 case ByteArr => 0xA0
  {
  }

  /** Text is sent up to its first zero, and ends in one. */
  lemma {:induction false} TextSent(s: bytes, i: nat)
    requires i < |s|
    ensures NetOrder(String, s)[i] == if i < |s| - 1 && (forall j :: 0 <= j <= i ==> s[j] != 0) then s[i] else 0
  {
    CopiedText(s, i);
  }

  lemma {:induction false} CopiedText(s: bytes, i: nat)
    requires i < |s|
    ensures StrCopy(s)[i] == if i < |s| - 1 && (forall j :: 0 <= j <= i ==> s[j] != 0) then s[i] else 0
  {
    if s[0] != 0 && |s| > 1 && i > 0 {
      CopiedText(s[1..], i - 1);
      assert (forall j :: 0 <= j <= i ==> s[j] != 0) <==> (forall j :: 0 <= j <= i - 1 ==> s[1..][j] != 0) by {
        assert forall j :: 0 < j <= i ==> s[j] == s[1..][j - 1];
      }
    }
  }

  /** The payload of an encoded number, as the peer reads it. */
  lemma PayloadValue(t: Tag, data: bytes, bs: bytes)
    requires BufEncodes(Mem(t, data), bs) && IsNumber(t)
    ensures |bs| == 20 + |data| && FromBE(bs[20..]) == HostValue(data)
  {
    NumberInNetOrder(t, data);
  }

  // ---- Encodings ----

  lemma SmallField(n: nat)
    requires n < 256
    ensures BE(n, 4) == [0, 0, 0, n as byte]
  {
    hide BE;
    NetworkOrder4(n);
  }

  lemma ClassFields()
    ensures BE(Clsid(Boxed(Empty)), 4) == [0, 0, 0x08, 0x25] && BE(Clsid(Config([])), 4) == [0, 0, 0x08, 0x2F]
    ensures BE(Clsid(Ints([])), 4) == [0, 0, 0x08, 0x46] && BE(Clsid(Vector([])), 4) == [0, 0, 0x08, 0xAB]
    ensures BE(Clsid(Qwords([])), 4) == [0, 0, 0x09, 0x00]
  {
    hide BE;
    NetworkOrder4(CLSID_BUFFER);
    NetworkOrder4(CLSID_CONFIG);
    NetworkOrder4(CLSID_INTVEC);
    NetworkOrder4(CLSID_OBJVEC);
    NetworkOrder4(CLSID_QWVEC);
  }

  const NUMBER: bytes := [0x78, 0x56, 0x34, 0x12]

  /** The number 0x12345678 in a buffer: all bytes but the reserved ones, 9 to 12. */
  lemma BufSample(bs: bytes)
    requires BufEncodes(Mem(UInt32, NUMBER), bs)
    ensures |bs| == 24 && bs[..9] == [0, 0, 0x08, 0x25, 0, 0, 0, 4, 1]
    ensures bs[12..] == [0, 0, 0, 0x30, 0, 0, 0, 0, 0x12, 0x34, 0x56, 0x78]
  {
    hide BE, Reversed;
    ClassFields();
    TagFacts(UInt32, NUMBER);
    SmallField(4);
    SmallField(0x30);
    SmallField(0);
    assert NetOrder(UInt32, NUMBER) == [0x12, 0x34, 0x56, 0x78];
    BufParts(bs);
  }

  lemma BufParts(bs: bytes)
    requires |bs| >= 20
    ensures bs[..9] == bs[..4] + bs[4..8] + [bs[8]]
    ensures bs[12..] == bs[12..16] + bs[16..20] + bs[20..]
  {
  }

  /** A property map with one property, and an empty one. */
  lemma ConfigSample(bs: bytes)
    requires Encodes(Config([Prop(5, Mem(UInt32, NUMBER))]), bs)
    ensures |bs| == 48
    ensures bs[..16] == [0, 0, 0x08, 0x2F, 0, 0, 0, 36, 1, 0, 0, 0, 0, 0, 0, 1]
    ensures bs[16..33] == [0, 0, 0, 5, 0, 0, 0, 24, 0, 0, 0x08, 0x25, 0, 0, 0, 4, 1]
    ensures bs[36..] == [0, 0, 0, 0x30, 0, 0, 0, 0, 0x12, 0x34, 0x56, 0x78]
  {
    hide BE, BufEncodes, ConfigHead;
    var p := Prop(5, Mem(UInt32, NUMBER));
    assert PropOffset([p], 0) == 0 && PropOffset([p], 1) == 32;
    assert PropAt(p, bs, 16) && ConfigHead(1, bs);
    ConfigHeadSample(bs);
    PropSample(p, bs);
  }

  lemma ConfigHeadSample(bs: bytes)
    requires |bs| == 48 && ConfigHead(1, bs)
    ensures bs[..16] == [0, 0, 0x08, 0x2F, 0, 0, 0, 36, 1, 0, 0, 0, 0, 0, 0, 1]
  {
    hide BE;
    ClassFields();
    SmallField(36);
    SmallField(1);
  }

  lemma PropSample(p: Prop, bs: bytes)
    requires p == Prop(5, Mem(UInt32, NUMBER)) && |bs| == 48 && PropAt(p, bs, 16)
    ensures bs[16..33] == [0, 0, 0, 5, 0, 0, 0, 24, 0, 0, 0x08, 0x25, 0, 0, 0, 4, 1]
    ensures bs[36..] == [0, 0, 0, 0x30, 0, 0, 0, 0, 0x12, 0x34, 0x56, 0x78]
  {
    hide BE, BufEncodes;
    SmallField(5);
    SmallField(24);
    var val := bs[24..48];
    BufSample(val);
    SliceInSlice(bs, 24, 48, 0, 9);
    SliceInSlice(bs, 24, 48, 12, 24);
    assert val[..9] == val[0..9] == bs[24..33] && val[12..] == val[12..24] == bs[36..48] == bs[36..];
    assert bs[16..33] == bs[16..20] + bs[20..24] + bs[24..33];
  }

  lemma EmptyConfigSample(bs: bytes)
    requires Encodes(Config([]), bs)
    ensures bs == [0, 0, 0x08, 0x2F, 0, 0, 0, 4, 1, 0, 0, 0, 0, 0, 0, 0]
  {
    hide BE;
    ClassFields();
    SmallField(4);
    SmallField(0);
    assert bs == bs[..16];
  }

  /** Vectors of integers, and a vector of objects with its table of offsets. */
  lemma IntsSample(bs: bytes)
    requires Encodes(Ints([7]), bs)
    ensures bs == [0, 0, 0x08, 0x46, 0, 0, 0, 8, 1, 0, 0, 0, 0, 0, 0, 1, 0, 0, 0, 7]
  {
    hide BE;
    ClassFields();
    SmallField(8);
    SmallField(1);
    SmallField(7);
    assert [7][1..] == [];
    assert NumBytes(4, [7]) == BE(7, 4);
  }

  lemma QwordsSample(bs: bytes)
    requires Encodes(Qwords([7]), bs)
    ensures bs == [0, 0, 0x09, 0, 0, 0, 0, 12, 1, 0, 0, 0, 0, 0, 0, 1, 0, 0, 0, 0, 0, 0, 0, 7]
  {
    hide BE;
    ClassFields();
    SmallField(12);
    SmallField(1);
    NetworkOrder8(7);
    assert [7][1..] == [];
    assert NumBytes(8, [7]) == BE(7, 8);
  }

  lemma VectorSample(bs: bytes)
    requires Encodes(Vector([Config([]), Ints([7])]), bs)
    ensures |bs| == 64 && bs[..16] == [0, 0, 0x08, 0xAB, 0, 0, 0, 52, 1, 0, 0, 0, 0, 0, 0, 3]
    ensures bs[16..28] == [0, 0, 0, 0, 0, 0, 0, 16, 0, 0, 0, 36]
    ensures bs[28..44] == [0, 0, 0x08, 0x2F, 0, 0, 0, 4, 1, 0, 0, 0, 0, 0, 0, 0]
    ensures bs[44..] == [0, 0, 0x08, 0x46, 0, 0, 0, 8, 1, 0, 0, 0, 0, 0, 0, 1, 0, 0, 0, 7]
  {
    hide Encodes, VectorHead, VectorTable, Offset, Swapped;
    var es := [Config([]), Ints([7])];
    VectorSampleParts(es, bs);
    HeadSample(es, bs);
    TableSample(es, bs);
    EmptyConfigSample(bs[28..44]);
    IntsSample(bs[44..64]);
    assert bs[44..64] == bs[44..];
  }

  lemma HeadSample(es: seq<Obj>, bs: bytes)
    requires |bs| == 64 && |es| == 2 && VectorHead(es, bs)
    ensures bs[..16] == [0, 0, 0x08, 0xAB, 0, 0, 0, 52, 1, 0, 0, 0, 0, 0, 0, 3]
  {
    hide BE;
    ClassFields();
    SmallField(52);
    SmallField(3);
    assert bs[..16] == bs[..4] + bs[4..8] + bs[8..12] + bs[12..16];
  }

  lemma TableSample(es: seq<Obj>, bs: bytes)
    requires |bs| == 64 && |es| == 2 && Swapped(es) && VectorTable(es, bs)
    requires Offset(es, 0) == 0 && Offset(es, 1) == 16 && Offset(es, 2) == 36
    ensures bs[16..28] == [0, 0, 0, 0, 0, 0, 0, 16, 0, 0, 0, 36]
  {
    hide BE, VectorTable, Offset;
    SmallField(0);
    SmallField(16);
    SmallField(36);
    TableSlot(es, bs, 0);
    TableSlot(es, bs, 1);
    TableSlot(es, bs, 2);
    assert bs[16..28] == bs[16..20] + bs[20..24] + bs[24..28];
  }

  lemma VectorSampleParts(es: seq<Obj>, bs: bytes)
    requires es == [Config([]), Ints([7])] && Encodes(Vector(es), bs)
    ensures |bs| == 64 && VectorHead(es, bs) && VectorTable(es, bs) && Swapped(es)
    ensures Offset(es, 0) == 0 && Offset(es, 1) == 16 && Offset(es, 2) == 36
    ensures Encodes(es[0], bs[28..44]) && Encodes(es[1], bs[44..64])
  {
    hide BE, VectorHead, VectorTable, ConfigEncodes, NumsEncode;
    assert Len(es[0]) == 16 && Len(es[1]) == 20;
    assert Offset(es, 0) == 0 && Offset(es, 1) == 16 && Offset(es, 2) == 36;
    VectorParts(es, bs);
    assert ElemAt(es[0], bs, 28) && ElemAt(es[1], bs, 44);
  }

  /** An object in a buffer: the type field says so, and the class of the object stands beside it. */
  lemma RefSample(bs: bytes)
    requires BufEncodes(Ref(Config([])), bs)
    ensures |bs| == 36 && bs[..9] == [0, 0, 0x08, 0x25, 0, 0, 0, 16, 1]
    ensures bs[12..20] == [0, 0, 0, 0x91, 0, 0, 0x08, 0x2F]
    ensures bs[20..] == [0, 0, 0x08, 0x2F, 0, 0, 0, 4, 1, 0, 0, 0, 0, 0, 0, 0]
  {
    hide BE;
    ClassFields();
    SmallField(16);
    SmallField(0x91);
    EmptyConfigSample(bs[20..]);
    assert bs[..9] == bs[..4] + bs[4..8] + [bs[8]];
    assert bs[12..20] == bs[12..16] + bs[16..20];
  }

  // ---- Memory that is refused ----

  /** The header of a buffer: its class, at most 512 MiB, and memory or an object that is there. */
  lemma BufRefused(mem: bytes)
    requires |mem| >= 20
    ensures var r, kind := DecodeBuf(mem), U32(mem, 12) % 16;
            && (U32(mem, 0) != 0x825 || U32(mem, 4) > 536870912 ==> r == Err(E_INVAL))
            && (U32(mem, 0) == 0x825 && U32(mem, 4) <= 536870912 ==>
                  && (kind > 1 ==> r == Err(E_NOTSUP))
                  && (kind == 1 && U32(mem, 4) == 0 ==> r == Err(E_RANGE))
                  && (kind == 0 && U32(mem, 4) == 0 ==> r == Ok(Empty))
                  && (kind == 0 && U32(mem, 4) > 16777216 ==> r == Err(E_FAULT)))
  {
    hide FromBE, DecodeRef;
  }

  /** The header of a property map: its class, at most 1024 properties, and a size that is there. */
  lemma ConfigRefused(mem: bytes, size: nat, acc: seq<Prop>)
    requires |mem| >= 16
    requires || size == 0 || U32(mem, 0) != 0x82F || U32(mem, 12) > 1024
             || U32(mem, 4) + 12 > size || U32(mem, 4) > 16777216
    ensures ReadConfig(mem, size, acc) == PropsRead(E_INVAL, acc)
  {
    hide FromBE, ReadProps;
  }

  /** An entry whose size leads past the end is set, and then the reading fails. */
  lemma EntryPastEnd(mem: bytes, size: nat, loc: nat, n: nat, acc: seq<Prop>)
    requires n > 0 && loc + 8 <= |mem| && DecodeBuf(mem[loc + 8..]).Ok?
    requires size < loc + 8 + U32(mem, loc + 4) < UINT32_LIMIT
    ensures var val := DecodeBuf(mem[loc + 8..]).val;
            ReadProps(mem, size, loc, n, acc) == PropsRead(E_2BIG, SetProp(acc, U32(mem, loc), val))
  {
    hide FromBE, DecodeBuf, SetProp;
  }

  /** The header of a vector: its class, then its size, then at most 10000 offsets, then a table that is there. */
  lemma VectorRefused(mem: bytes, size: nat, acc: seq<Obj>)
    requires |mem| >= 16 && U32(mem, 12) <= 10000 ==> 16 + 4 * U32(mem, 12) <= |mem|
    requires |mem| >= 16
    ensures var r := ReadVector(mem, size, acc);
            && (size < 16 ==> r.ret == E_INVAL && r.mem == mem && r.elems == acc)
            && (size >= 16 && U32(mem, 0) != 0x8AB ==> r.ret == E_INVAL && r.elems == acc)
            && (size >= 16 && U32(mem, 0) == 0x8AB && (size < U32(mem, 4) + 4 || U32(mem, 12) > 10000) ==>
                  r.ret == E_RANGE && r.elems == acc)
            && (16 <= size < 0x8000_0000 && U32(mem, 0) == 0x8AB && size >= U32(mem, 4) + 4
                && U32(mem, 12) <= 10000 && 16 + 4 * U32(mem, 12) > size ==>
                  r.ret == E_INVAL && r.elems == acc)
  {
    hide FromBE, ReadElems, Ntoh;
  }

  /** An offset that leads past the end stops the reading of a vector. */
  lemma ElemPastEnd(mem: bytes, size: nat, n: nat, i: nat, acc: seq<Obj>)
    requires i < n && 16 + 4 * (n + 1) <= |mem| && size < 0x8000_0000
    requires 16 + 4 * (n + 1) + H32(mem, 16 + 4 * i) >= size
    ensures ReadElems(mem, size, n, i, acc) == ElemsRead(E_NOMEM, acc, mem)
  {
    hide FromBE, DecodeElem;
  }

  /** A vector of integers: its class, a size and a count that agree, and last its version. */
  lemma NumsRefused(clsid: nat, w: nat, mem: bytes)
    requires w > 0 && |mem| >= 16
    ensures var r, size, count := DecodeNums(clsid, w, mem), U32(mem, 4), U32(mem, 12);
            && (U32(mem, 0) != clsid ==> r == Err(E_NOTSUP))
            && (U32(mem, 0) == clsid && size > 536870912 ==> r == Err(E_INVAL))
            && (U32(mem, 0) == clsid && size >= 4 && (size - 4) / w != count ==> r == Err(E_INVAL))
            && (U32(mem, 0) == clsid && 4 <= size <= 536870912 && (size - 4) / w == count && mem[8] != 1 ==>
                  16 + w * count <= |mem| ==> r == Err(E_NOTSUP))
  {
    hide FromBE, ReadNums;
    assert U32(mem, 4) >= 4 && U32(mem, 4) <= 536870912 ==> (U32(mem, 4) - 4) % UINT32_LIMIT == U32(mem, 4) - 4;
  }
}
