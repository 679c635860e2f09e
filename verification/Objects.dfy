/**
 The object wire format: property maps, object vectors, integer vectors and typed memory buffers,
 nested in each other to any depth. `Encodes` says which byte strings are encodings of an object;
 padding, and the reserved bytes of a buffer header, are left as they happen to be in memory.
 The host is little-endian with 64-bit pointers.
 */
module Objects {
  import opened Bytes
  import opened Buffers

  const CLSID_BUFFER: nat := 0x825
  const CLSID_CONFIG: nat := 0x82F
  const CLSID_INTVEC: nat := 0x846
  const CLSID_OBJVEC: nat := 0x8AB
  const CLSID_QWVEC: nat := 0x900
  const CLSID_INVALID: nat := 0xFFFF_FFFF

  const CFGDB_MAX_SIZE: nat := 16 * 1024 * 1024
  const CFGDB_MAX_ITEM: nat := 1024
  const MAX_ELEM_CONTAINER: nat := 10000
  const BASE_SIZE: nat := 12
  const HEADER_SIZE: nat := 16
  const BUF_HEADER_SIZE: nat := 20
  const DATA_MEM: nat := 0
  const DATA_OBJPTR: nat := 1
  const SIZEOF_OBJPTR: nat := 8

  /** The types a memory buffer can be tagged with. */
  datatype Tag = None_ | Byte | UInt16 | UInt32 | UInt64 | Float | Double | String | ByteArr

  /** A buffer holds nothing, memory in host order, or a pointer to an object. An empty buffer has no
      tag that the format or a comparison would see. */
  datatype Buf = Empty | Mem(tag: Tag, data: bytes) | Ref(obj: Obj)

  /** Properties are listed in the iteration order of the hash map, whatever that is. */
  datatype Prop = Prop(key: nat, val: Buf)

  datatype Obj =
    | Null
    | Config(props: seq<Prop>)
    | Vector(elems: seq<Obj>)
    | Ints(ints: seq<nat>)
    | Qwords(qwords: seq<nat>)
    | Boxed(buf: Buf)

  function TagCode(t: Tag): (c: nat)
    ensures c < 16
  {
    match t
    case None_ => 0 case Byte => 1 case UInt16 => 2 case UInt32 => 3 case UInt64 => 4
    case Float => 5 case Double => 6 case String => 7 case ByteArr => 10
  }

  function TagOf(code: nat): Option<Tag> {
    match code
    case 0 => Some(None_) case 1 => Some(Byte) case 2 => Some(UInt16) case 3 => Some(UInt32)
    case 4 => Some(UInt64) case 5 => Some(Float) case 6 => Some(Double) case 7 => Some(String)
    case 10 => Some(ByteArr)
    case _ => None
  }

  /** The width of a number in memory, 0 for the tags that have none. */
  function Width(t: Tag): nat {
    match t
    case Byte => 1
    case UInt16 => 2
    case UInt32 | Float => 4
    case UInt64 | Double => 8
    case None_ | String | ByteArr => 0
  }

  function Clsid(o: Obj): nat {
    match o
    case Null => CLSID_INVALID
    case Config(_) => CLSID_CONFIG
    case Vector(_) => CLSID_OBJVEC
    case Ints(_) => CLSID_INTVEC
    case Qwords(_) => CLSID_QWVEC
    case Boxed(_) => CLSID_BUFFER
  }

  // ---- Memory in network order ----

  function Reversed(s: bytes): (r: bytes)
    ensures |r| == |s| && forall i :: 0 <= i < |s| ==> r[i] == s[|s| - 1 - i]
  {
    seq(|s|, i requires 0 <= i < |s| => s[|s| - 1 - i])
  }

  /** strncpy into a block of the same size, then a zero at the end. */
  function StrCopy(s: bytes): (r: bytes)
    ensures |r| == |s|
  {
    if s == [] then []
    else if s[0] == 0 then seq(|s|, _ => 0)
    else if |s| == 1 then [0]
    else [s[0]] + StrCopy(s[1..])
  }

  /** What SerializePrimeType and DeserializePrimeType do to the bytes. */
  function NetOrder(t: Tag, data: bytes): (r: bytes)
    ensures |r| == |data|
  {
    if Width(t) > 0 then Reversed(data)
    else if t == String then StrCopy(data)
    else data
  }

  // ---- Lengths ----

  function BufLen(b: Buf): (n: nat)
    ensures n >= BUF_HEADER_SIZE
    decreases b
  {
    match b
    case Empty => BUF_HEADER_SIZE
    case Mem(_, data) => BUF_HEADER_SIZE + |data|
    case Ref(o) => BUF_HEADER_SIZE + Len(o)
  }

  /** The length of every encoding of an object. */
  function Len(o: Obj): (n: nat)
    decreases o, 1
  {
    match o
    case Null => 0
    case Config(ps) => HEADER_SIZE + PropOffset(ps, |ps|)
    case Vector(es) => HEADER_SIZE + 4 * (|es| + 1) + Offset(es, |es|)
    case Ints(xs) => HEADER_SIZE + 4 * |xs|
    case Qwords(xs) => HEADER_SIZE + 8 * |xs|
    case Boxed(b) => BufLen(b)
  }

  function PropLen(p: Prop): (n: nat)
    ensures n % 4 == 0 && n >= 8 + BUF_HEADER_SIZE
    decreases p
  {
    8 + AlignDword(BufLen(p.val))
  }

  lemma AlignedSum(m: nat, n: nat)
    requires m % 4 == 0 && n % 4 == 0
    ensures (m + n) % 4 == 0
  {
  }

  /** Where the entry of index `i` would start, counted from the end of the header. */
  function PropOffset(ps: seq<Prop>, i: nat): (n: nat)
    requires i <= |ps|
    ensures n % 4 == 0 && (i == 0 ==> n == 0)
    decreases ps, 0, i
  {
    if i == 0 then 0
    else
      AlignedSum(PropOffset(ps, i - 1), PropLen(ps[i - 1]));
      PropOffset(ps, i - 1) + PropLen(ps[i - 1])
  }

  /** Where the element of index `i` would start in the payload: after the padded elements before it. */
  function Offset(es: seq<Obj>, i: nat): (n: nat)
    requires i <= |es|
    ensures n % 4 == 0 && (i == 0 ==> n == 0)
    decreases es, 0, i
  {
    if i == 0 then 0
    else
      AlignedSum(Offset(es, i - 1), AlignDword(Len(es[i - 1])));
      Offset(es, i - 1) + AlignDword(Len(es[i - 1]))
  }

  // ---- Encodings ----

  function Header(clsid: nat, size: nat): (h: bytes)
    ensures |h| == BASE_SIZE
  {
    BE(clsid, 4) + BE(size, 4) + [1, 0, 0, 0]
  }

  /** A four-byte field in host order, as hton leaves it when it refuses to convert. */
  function Field(n: nat, swapped: bool): (f: bytes)
    ensures |f| == 4
  {
    if swapped then BE(n, 4) else Reversed(BE(n, 4))
  }

  /** hton converts the header and the table of a vector only up to the container limit. */
  predicate Swapped(es: seq<Obj>) {
    |es| + 1 <= MAX_ELEM_CONTAINER
  }

  function BufType(b: Buf): nat {
    match b
    case Empty => DATA_MEM
    case Mem(t, _) => DATA_MEM + 16 * TagCode(t)
    case Ref(_) => DATA_OBJPTR + 16 * 9
  }

  /** The reserved bytes, 9 to 12, are not looked at. */
  predicate BufHead(b: Buf, bs: bytes) {
    && |bs| >= BUF_HEADER_SIZE
    && bs[..4] == BE(CLSID_BUFFER, 4) && bs[4..8] == BE(|bs| - BUF_HEADER_SIZE, 4) && bs[8] == 1
    && bs[12..16] == BE(BufType(b), 4)
    && bs[16..20] == BE(if b.Ref? then Clsid(b.obj) else 0, 4)
  }

  ghost predicate BufEncodes(b: Buf, bs: bytes)
    decreases b
  {
    && |bs| == BufLen(b) && BufHead(b, bs)
    && match b
       case Empty => true
       case Mem(t, data) => bs[20..] == NetOrder(t, data)
       case Ref(o) => Encodes(o, bs[20..])
  }

  /** One entry at its place: key, padded size, value; what pads it is not looked at. */
  ghost predicate PropAt(p: Prop, bs: bytes, at: nat)
    decreases p
  {
    var n := BufLen(p.val);
    && at + 8 + n <= |bs|
    && bs[at..at + 4] == BE(p.key, 4) && bs[at + 4..at + 8] == BE(AlignDword(n), 4)
    && BufEncodes(p.val, bs[at + 8..at + 8 + n])
  }

  ghost predicate ElemAt(o: Obj, bs: bytes, at: nat)
    decreases o, 2
  {
    at + Len(o) <= |bs| && Encodes(o, bs[at..at + Len(o)])
  }

  /** Where the payload of a vector of `n` elements starts: after the table of `n + 1` offsets. */
  function PayloadStart(n: nat): nat {
    HEADER_SIZE + 4 * (n + 1)
  }

  ghost predicate Encodes(o: Obj, bs: bytes)
    decreases o, 1
  {
    && |bs| == Len(o)
    && match o
       case Null => false
       case Config(ps) => ConfigEncodes(ps, bs)
       case Vector(es) => VectorEncodes(es, bs)
       case Ints(xs) => NumsEncode(CLSID_INTVEC, 4, xs, bs)
       case Qwords(xs) => NumsEncode(CLSID_QWVEC, 8, xs, bs)
       case Boxed(b) => BufEncodes(b, bs)
  }

  ghost predicate ConfigEncodes(ps: seq<Prop>, bs: bytes)
    decreases ps, 0
  {
    && |bs| == HEADER_SIZE + PropOffset(ps, |ps|)
    && ConfigHead(|ps|, bs)
    && forall i :: 0 <= i < |ps| ==> PropAt(ps[i], bs, HEADER_SIZE + PropOffset(ps, i))
  }

  predicate ConfigHead(n: nat, bs: bytes) {
    |bs| >= HEADER_SIZE && bs[..16] == Header(CLSID_CONFIG, |bs| - BASE_SIZE) + BE(n, 4)
  }

  ghost predicate VectorEncodes(es: seq<Obj>, bs: bytes)
    decreases es, 0
  {
    && |bs| == PayloadStart(|es|) + Offset(es, |es|)
    && VectorHead(es, bs) && VectorTable(es, bs)
    && forall i :: 0 <= i < |es| ==> ElemAt(es[i], bs, PayloadStart(|es|) + Offset(es, i))
  }

  predicate VectorHead(es: seq<Obj>, bs: bytes) {
    && |bs| >= HEADER_SIZE
    && bs[..4] == Field(CLSID_OBJVEC, Swapped(es)) && bs[4..8] == Field(|bs| - BASE_SIZE, Swapped(es))
    && bs[8..12] == [1, 0, 0, 0] && bs[12..16] == Field(|es| + 1, Swapped(es))
  }

  /** The table: where each element starts, and last where the payload ends. */
  predicate VectorTable(es: seq<Obj>, bs: bytes) {
    && |bs| >= PayloadStart(|es|)
    && forall i :: 0 <= i <= |es| ==> bs[16 + 4 * i..20 + 4 * i] == Field(Offset(es, i), Swapped(es))
  }

  ghost predicate NumsEncode(clsid: nat, w: nat, xs: seq<nat>, bs: bytes) {
    bs == Header(clsid, w * |xs| + 4) + BE(|xs|, 4) + NumBytes(w, xs)
  }

  function NumBytes(w: nat, xs: seq<nat>): bytes {
    if xs == [] then [] else BE(xs[0], w) + NumBytes(w, xs[1..])
  }

  lemma {:induction false} NumBytesLen(w: nat, xs: seq<nat>)
    ensures |NumBytes(w, xs)| == w * |xs|
  {
    if xs != [] {
      NumBytesLen(w, xs[1..]);
      assert w * |xs| == w * |xs[1..]| + w;
    }
  }

  // ---- What the deserializers make of any bytes ----

  type Failure = x: int | x < 0 witness -1

  datatype Result<+T> = Ok(val: T) | Err(code: Failure)

  function U32(mem: bytes, at: nat): nat
    requires at + 4 <= |mem|
  {
    FromBE(mem[at..at + 4])
  }

  /** The same of a field in host order. */
  function H32(mem: bytes, at: nat): nat
    requires at + 4 <= |mem|
  {
    FromBE(Reversed(mem[at..at + 4]))
  }

  /** Four bytes after four, reversed. */
  function SwapGroups(s: bytes): (r: bytes)
    ensures |r| == |s|
    decreases |s|
  {
    if |s| < 4 then s else Reversed(s[..4]) + SwapGroups(s[4..])
  }

  /** How many bytes of offsets ntoh converts: none when there are too many, or more than there is memory. */
  function TableSize(mem: bytes): (n: nat)
    requires |mem| >= HEADER_SIZE
    ensures HEADER_SIZE + n <= |mem| && n <= 4 * MAX_ELEM_CONTAINER
  {
    var count := U32(mem, 12);
    if count <= MAX_ELEM_CONTAINER && HEADER_SIZE + 4 * count <= |mem| then 4 * count else 0
  }

  /** What ntoh makes of the memory of a vector: the header and the table are in host order afterwards. */
  function Ntoh(mem: bytes): (r: bytes)
    requires |mem| >= HEADER_SIZE
    ensures |r| == |mem|
  {
    var end := HEADER_SIZE + TableSize(mem);
    SwapGroups(mem[..8]) + mem[8..12] + SwapGroups(mem[12..end]) + mem[end..]
  }

  predicate HasKey(ps: seq<Prop>, key: nat) {
    exists i :: 0 <= i < |ps| && ps[i].key == key
  }

  /** A property set by key: replaced in place, or added. */
  function SetProp(ps: seq<Prop>, key: nat, val: Buf): (r: seq<Prop>)
    ensures |ps| <= |r|
    ensures forall i :: 0 <= i < |ps| ==> r[i].key == ps[i].key && (ps[i].key != key ==> r[i] == ps[i])
    ensures if HasKey(ps, key) then |r| == |ps| else r == ps + [Prop(key, val)]
  {
    if ps == [] then [Prop(key, val)]
    else if ps[0].key == key then [Prop(key, val)] + ps[1..]
    else
      assert HasKey(ps[1..], key) <==> HasKey(ps, key) by {
        HasKeyLater(ps, key);
      }
      [ps[0]] + SetProp(ps[1..], key, val)
  }

  lemma HasKeyLater(ps: seq<Prop>, key: nat)
    requires ps != [] && ps[0].key != key
    ensures HasKey(ps[1..], key) <==> HasKey(ps, key)
  {
    if HasKey(ps, key) {
      var i :| 0 <= i < |ps| && ps[i].key == key;
      assert ps[1..][i - 1].key == key;
    }
  }

  /** The value of a key, if the map has it. */
  function Lookup(ps: seq<Prop>, key: nat): Option<Buf> {
    if ps == [] then None else if ps[0].key == key then Some(ps[0].val) else Lookup(ps[1..], key)
  }

  predicate DistinctKeys(ps: seq<Prop>) {
    forall i, j :: 0 <= i < j < |ps| ==> ps[i].key != ps[j].key
  }

  /** After a property is set its key has the value, and every other key has what it had. */
  lemma {:induction false} SetThenLookup(ps: seq<Prop>, key: nat, val: Buf, other: nat)
    ensures Lookup(SetProp(ps, key, val), other) == if other == key then Some(val) else Lookup(ps, other)
  {
    hide HasKey;
    if ps != [] && ps[0].key != key {
      SetThenLookup(ps[1..], key, val, other);
      assert SetProp(ps, key, val)[1..] == SetProp(ps[1..], key, val);
    }
  }

  /** Setting properties never gives a key two values. */
  lemma SetKeepsDistinct(ps: seq<Prop>, key: nat, val: Buf)
    requires DistinctKeys(ps)
    ensures DistinctKeys(SetProp(ps, key, val))
  {
    hide SetProp;
    if !HasKey(ps, key) {
      assert forall i :: 0 <= i < |ps| ==> ps[i].key != key;
    }
  }

  /** A buffer, from memory that begins with its header. E_FAULT stands for a read past the memory. */
  function DecodeBuf(mem: bytes): (r: Result<Buf>)
    decreases |mem|, 4, 0
  {
    if |mem| < BUF_HEADER_SIZE then Err(E_FAULT)
    else if U32(mem, 0) != CLSID_BUFFER || U32(mem, 4) > BUF_MAX_SIZE then Err(E_INVAL)
    else
      var size, type_ := U32(mem, 4), U32(mem, 12);
      if type_ % 16 == DATA_MEM then DecodeMem(size, TagOf(type_ / 16 % 16), mem[20..])
      else if type_ % 16 == DATA_OBJPTR then
        if size == 0 then Err(E_RANGE)
        else if BUF_HEADER_SIZE + size > |mem| then Err(E_FAULT)
        else
          var r := DecodeRef(U32(mem, 16), if size <= MAX_BYTES_PER_BUFFER then mem[20..20 + size] else []);
          if r.Err? then Err(r.code) else Ok(Ref(r.val))
      else Err(E_NOTSUP)
  }

  /** Memory of a given tag. A number whose size is not its width is not defined. */
  function DecodeMem(size: nat, tag: Option<Tag>, payload: bytes): (r: Result<Buf>) {
    if size == 0 then Ok(Empty)
    else if size > MAX_BYTES_PER_BUFFER then Err(E_FAULT)
    else if tag.None? then Err(E_NOTSUP)
    else if size > |payload| || (Width(tag.value) > 0 && Width(tag.value) != size) then Err(E_FAULT)
    else Ok(Mem(tag.value, NetOrder(tag.value, payload[..size])))
  }

  /** An object of a class, from a buffer of its own. */
  function DecodeRef(clsid: nat, mem: bytes): (r: Result<Obj>)
    decreases |mem|, 5, 0
  {
    if clsid == CLSID_CONFIG then
      if mem == [] then Err(E_INVAL) else Wrap(DecodeConfig(mem, |mem|), ps => Config(ps))
    else if clsid == CLSID_OBJVEC then
      if mem == [] then Err(E_INVAL) else Wrap(DecodeVector(mem, |mem|).res, es => Vector(es))
    else if clsid == CLSID_INTVEC then Wrap(DecodeNums(CLSID_INTVEC, 4, mem), xs => Ints(xs))
    else if clsid == CLSID_QWVEC then Wrap(DecodeNums(CLSID_QWVEC, 8, mem), xs => Qwords(xs))
    else if clsid == CLSID_BUFFER then Wrap(DecodeBuf(mem), b => Boxed(b))
    else Err(E_NOTSUP)
  }

  function Wrap<S, T>(r: Result<S>, f: S -> T): Result<T> {
    match r
    case Ok(v) => Ok(f(v))
    case Err(c) => Err(c)
  }

  /** What is decoded, and the memory afterwards: vectors convert their headers where they stand. */
  datatype Decoded<+T> = Decoded(res: Result<T>, mem: bytes)

  /** An object of a class, from a place in memory and a size. The integer vectors have no such form
      and fall back on the one that is not supported. */
  function DecodeElem(clsid: nat, mem: bytes, size: nat): (d: Decoded<Obj>)
    ensures |d.mem| == |mem|
    decreases |mem|, 5, 0
  {
    if clsid == CLSID_CONFIG then Decoded(Wrap(DecodeConfig(mem, size), ps => Config(ps)), mem)
    else if clsid == CLSID_OBJVEC then
      var d := DecodeVector(mem, size);
      Decoded(Wrap(d.res, es => Vector(es)), d.mem)
    else if clsid == CLSID_BUFFER then Decoded(Wrap(DecodeBuf(mem), b => Boxed(b)), mem)
    else Decoded(Err(E_NOTSUP), mem)
  }

  /** A status, and the properties set by then. */
  datatype PropsRead = PropsRead(ret: Status, props: seq<Prop>)

  /** The entries are added to those the map has already. */
  function ReadConfig(mem: bytes, size: nat, acc: seq<Prop>): (r: PropsRead)
    decreases |mem|, 3, 0
  {
    if size == 0 then PropsRead(E_INVAL, acc)
    else if |mem| < HEADER_SIZE then PropsRead(E_FAULT, acc)
    else if U32(mem, 0) != CLSID_CONFIG || U32(mem, 12) > CFGDB_MAX_ITEM
            || U32(mem, 4) + BASE_SIZE > size || U32(mem, 4) > CFGDB_MAX_SIZE then PropsRead(E_INVAL, acc)
    else ReadProps(mem, size, HEADER_SIZE, U32(mem, 12), acc)
  }

  /** The loop over the entries, `n` of them still to read from `loc` on. */
  function ReadProps(mem: bytes, size: nat, loc: nat, n: nat, acc: seq<Prop>): (r: PropsRead)
    decreases |mem|, 2, n
  {
    if n == 0 then PropsRead(0, acc)
    else if loc + 8 > |mem| then PropsRead(E_FAULT, acc)
    else
      var val := DecodeBuf(mem[loc + 8..]);
      if val.Err? then PropsRead(val.code, acc)
      else
        var next, set_ := loc + 8 + U32(mem, loc + 4), SetProp(acc, U32(mem, loc), val.val);
        if next % UINT32_LIMIT > size then PropsRead(E_2BIG, set_)
        else ReadProps(mem, size, next, n - 1, set_)
  }

  function Outcome(r: PropsRead): Result<seq<Prop>> {
    if r.ret < 0 then Err(r.ret) else Ok(r.props)
  }

  function DecodeProps(mem: bytes, size: nat, loc: nat, n: nat, acc: seq<Prop>): Result<seq<Prop>> {
    Outcome(ReadProps(mem, size, loc, n, acc))
  }

  function DecodeConfig(mem: bytes, size: nat): (r: Result<seq<Prop>>)
    decreases |mem|, 3, 1
  {
    Outcome(ReadConfig(mem, size, []))
  }

  const INT32_LIMIT: int := 0x8000_0000

  /** A 32-bit size after a cast to a signed number. */
  function SignedSize(size: nat): int {
    if size < INT32_LIMIT then size else size - UINT32_LIMIT
  }

  /** A status, the elements read by then, and the memory afterwards. */
  datatype ElemsRead = ElemsRead(ret: Status, elems: seq<Obj>, mem: bytes)

  /** The vector is emptied once the header and the size of the table are found good. */
  function ReadVector(mem: bytes, size: nat, acc: seq<Obj>): (r: ElemsRead)
    ensures |r.mem| == |mem|
    decreases |mem|, 3, 0
  {
    if size < HEADER_SIZE then ElemsRead(E_INVAL, acc, mem)
    else if |mem| < HEADER_SIZE then ElemsRead(E_FAULT, acc, mem)
    else
      var count, host := U32(mem, 12), Ntoh(mem);
      if count <= MAX_ELEM_CONTAINER && HEADER_SIZE + 4 * count > |mem| then ElemsRead(E_FAULT, acc, host)
      else if U32(mem, 0) != CLSID_OBJVEC then ElemsRead(E_INVAL, acc, host)
      else if size < U32(mem, 4) + 4 || count > MAX_ELEM_CONTAINER then ElemsRead(E_RANGE, acc, host)
      else if HEADER_SIZE + 4 * count > SignedSize(size) then ElemsRead(E_INVAL, acc, host)
      else if count == 0 then ElemsRead(E_FAULT, acc, host)
      else ReadElems(host, size, count - 1, 0, [])
  }

  /** The loop over the elements: a place and a size for each from two neighbours in the table. */
  function ReadElems(mem: bytes, size: nat, n: nat, i: nat, acc: seq<Obj>): (r: ElemsRead)
    requires i <= n && PayloadStart(n) <= |mem|
    ensures |r.mem| == |mem|
    decreases |mem|, 2, n - i
  {
    if i == n then ElemsRead(0, acc, mem)
    else
      var pos, next := H32(mem, 16 + 4 * i), H32(mem, 20 + 4 * i);
      var at := PayloadStart(n) + pos;
      if at >= SignedSize(size) then ElemsRead(E_NOMEM, acc, mem)
      else if at + 4 > |mem| then ElemsRead(E_FAULT, acc, mem)
      else
        var elem := DecodeElem(U32(mem, at), mem[at..], (next - pos) % UINT32_LIMIT);
        var after := mem[..at] + elem.mem;
        if elem.res.Err? then ElemsRead(elem.res.code, acc, after)
        else ReadElems(after, size, n, i + 1, acc + [elem.res.val])
  }

  function VectorOutcome(r: ElemsRead): Decoded<seq<Obj>> {
    Decoded(if r.ret < 0 then Err(r.ret) else Ok(r.elems), r.mem)
  }

  function DecodeElems(mem: bytes, size: nat, n: nat, i: nat, acc: seq<Obj>): Decoded<seq<Obj>>
    requires i <= n && PayloadStart(n) <= |mem|
  {
    VectorOutcome(ReadElems(mem, size, n, i, acc))
  }

  function DecodeVector(mem: bytes, size: nat): (d: Decoded<seq<Obj>>)
    ensures |d.mem| == |mem|
    decreases |mem|, 3, 1
  {
    VectorOutcome(ReadVector(mem, size, []))
  }

  function DecodeNums(clsid: nat, w: nat, mem: bytes): (r: Result<seq<nat>>)
    requires w > 0
  {
    if |mem| < HEADER_SIZE then Err(E_INVAL)
    else if U32(mem, 0) != clsid then Err(E_NOTSUP)
    else if U32(mem, 4) > BUF_MAX_SIZE then Err(E_INVAL)
    else if (U32(mem, 4) - 4) % UINT32_LIMIT / w != U32(mem, 12) then Err(E_INVAL)
    else if HEADER_SIZE + w * U32(mem, 12) > |mem| then Err(E_FAULT)
    // a wrong version is noticed, but only after the elements are read
    else if mem[8] != 1 then Err(E_NOTSUP)
    else Ok(ReadNums(mem[HEADER_SIZE..], w, U32(mem, 12)))
  }

  function ReadNums(s: bytes, w: nat, n: nat): (xs: seq<nat>)
    requires w * n <= |s|
    ensures |xs| == n
    decreases n
  {
    if n == 0 then []
    else
      assert w * n == w * (n - 1) + w;
      [FromBE(s[..w])] + ReadNums(s[w..], w, n - 1)
  }

  // ---- Which objects survive ----

  /** What holds of every object the program can build within the 16 MiB a buffer can have. */
  ghost predicate Shaped(o: Obj)
    decreases o, 1
  {
    && Len(o) <= MAX_BYTES_PER_BUFFER
    && match o
       case Null => true
       case Config(ps) => PropsShaped(ps)
       case Vector(es) => ElemsShaped(es)
       case Ints(xs) => forall i :: 0 <= i < |xs| ==> xs[i] < UINT32_LIMIT
       case Qwords(xs) => forall i :: 0 <= i < |xs| ==> xs[i] < Pow256(8)
       case Boxed(b) => BufShaped(b)
  }

  ghost predicate PropsShaped(ps: seq<Prop>)
    decreases ps, 0
  {
    && (forall i :: 0 <= i < |ps| ==> PropShaped(ps[i]))
    && DistinctKeys(ps)
  }

  ghost predicate ElemsShaped(es: seq<Obj>)
    decreases es, 0
  {
    forall i :: 0 <= i < |es| ==> Shaped(es[i])
  }

  ghost predicate PropShaped(p: Prop)
    decreases p
  {
    p.key < UINT32_LIMIT && BufShaped(p.val)
  }

  ghost predicate BufShaped(b: Buf)
    decreases b
  {
    match b
    case Empty => true
    case Mem(t, data) => 0 < |data| <= MAX_BYTES_PER_BUFFER && (Width(t) > 0 ==> |data| == Width(t))
    case Ref(o) => Shaped(o)
  }

  /**
   What a sender can check: not too many properties or elements, strings that end at their first zero,
   and no integer vector put directly into an object vector.
   */
  ghost predicate Friendly(o: Obj)
    decreases o, 1
  {
    match o
    case Null | Ints(_) | Qwords(_) => true
    case Config(ps) => |ps| <= CFGDB_MAX_ITEM && forall i :: 0 <= i < |ps| ==> BufFriendly(ps[i].val)
    case Vector(es) => |es| + 1 <= MAX_ELEM_CONTAINER && forall i :: 0 <= i < |es| ==> ElemFriendly(es[i])
    case Boxed(b) => BufFriendly(b)
  }

  ghost predicate ElemFriendly(o: Obj)
    decreases o, 2
  {
    !o.Ints? && !o.Qwords? && Friendly(o)
  }

  ghost predicate BufFriendly(b: Buf)
    decreases b
  {
    match b
    case Empty => true
    case Mem(t, data) => t == String ==> IsString(data)
    case Ref(o) => Friendly(o)
  }

  /** Characters, then zeros up to the end, at least one. */
  predicate IsString(s: bytes) {
    && s != [] && s[|s| - 1] == 0
    && forall i, j :: 0 <= i < j < |s| && s[i] == 0 ==> s[j] == 0
  }
}
