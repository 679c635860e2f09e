/**
 The ridl wire format: what a value of each type looks like in bytes (`Encode`), what the in-place
 serializer writes for any value and signature (`Written`), and what the deserializer makes of any
 bytes (`Decode`). Values live in the types that the ridl compiler generates.
 */
module Ridl {
  import opened Bytes
  import opened Buffers

  const MAX_ELEM_COUNT: nat := 1000000
  const HDR_SIZE: nat := 8

  datatype Kind =
    | Bool | UInt8 | Int16 | UInt16 | Int32 | UInt32 | Int64 | UInt64 | Float | Double
    | Str | ByteArr

  /** What a map can have as keys: byte arrays have no order, and that of floating point is not modelled. */
  type KeyKind = k: Kind | !k.Float? && !k.Double? && !k.ByteArr? witness Str

  datatype Type =
    | Scalar(kind: Kind)
    | Array(elem: Type)
    | Map(key: KeyKind, elem: Type)

  /** Numbers are bit patterns; a null and an empty bytearray are the same value. */
  datatype Atom = Num(n: nat) | Blob(s: bytes)

  datatype Entry = Entry(key: Atom, val: Value)

  /** Map entries are listed in iteration order, which is that of their keys. */
  datatype Value =
    | Leaf(atom: Atom)
    | List(elems: seq<Value>)
    | Dict(entries: seq<Entry>)

  predicate IsNumeric(k: Kind) {
    !k.Str? && !k.ByteArr?
  }

  function Width(k: Kind): (w: nat)
    requires IsNumeric(k)
    ensures w in {1, 2, 4, 8}
  {
    match k
    case Bool | UInt8 => 1
    case Int16 | UInt16 => 2
    case Int32 | UInt32 | Float => 4
    case Int64 | UInt64 | Double => 8
  }

  predicate AtomTyped(k: Kind, a: Atom) {
    if IsNumeric(k) then a.Num? && a.n < (if k == Bool then 2 else Pow256(Width(k)))
    else a.Blob?
  }

  predicate Typed(t: Type, v: Value)
    decreases v
  {
    match t
    case Scalar(k) => v.Leaf? && AtomTyped(k, v.atom)
    case Array(elem) => v.List? && forall e <- v.elems :: Typed(elem, e)
    case Map(k, elem) =>
      && v.Dict? && Ascending(k, v.entries)
      && forall e <- v.entries :: EntryTyped(k, elem, e)
  }

  predicate EntryTyped(k: Kind, t: Type, e: Entry)
    decreases e
  {
    AtomTyped(k, e.key) && Typed(t, e.val)
  }

  // ---- The order of keys ----

  /** A number of `2 * half` patterns in two's complement. */
  function Signed(n: nat, half: nat): int {
    if n < half then n else n - 2 * half
  }

  function KeyValue(k: Kind, n: nat): int {
    match k
    case Int16 => Signed(n, 0x8000)
    case Int32 => Signed(n, 0x8000_0000)
    case Int64 => Signed(n, 0x8000_0000_0000_0000)
    case _ => n
  }

  /** The order of std::string: byte by byte, and a prefix first. */
  predicate BytesBefore(a: bytes, b: bytes) {
    if b == [] then false
    else if a == [] then true
    else if a[0] != b[0] then a[0] < b[0]
    else BytesBefore(a[1..], b[1..])
  }

  /** The order in which a std::map keeps its keys. */
  predicate Before(k: Kind, a: Atom, b: Atom) {
    match (a, b)
    case (Num(m), Num(n)) => KeyValue(k, m) < KeyValue(k, n)
    case (Blob(s), Blob(u)) => BytesBefore(s, u)
    case _ => false
  }

  predicate Ascending(k: Kind, es: seq<Entry>) {
    forall i, j :: 0 <= i < j < |es| ==> Before(k, es[i].key, es[j].key)
  }

  // ---- Signatures ----

  function KindSig(k: Kind): char {
    match k
    case Bool => 'b' case UInt8 => 'B'
    case Int16 => 'w' case UInt16 => 'W'
    case Int32 => 'd' case UInt32 => 'D'
    case Int64 => 'q' case UInt64 => 'Q'
    case Float => 'f' case Double => 'F'
    case Str => 's' case ByteArr => 'a'
  }

  /** The signature the ridl compiler emits for a type. */
  function Sig(t: Type): (s: string)
    ensures s != ""
  {
    match t
    case Scalar(k) => [KindSig(k)]
    case Array(elem) => "(" + Sig(elem) + ")"
    case Map(k, elem) => "[" + [KindSig(k)] + Sig(elem) + "]"
  }

  predicate Bracketed(s: string, open: char, close: char) {
    |s| >= 2 && s[0] == open && s[|s| - 1] == close
  }

  /** The signature without its outer brackets. */
  function Strip(s: string): string
    requires |s| >= 2
  {
    s[1..|s| - 1]
  }

  // ---- The encoding ----

  function EncodeAtom(a: Atom, k: Kind): (r: bytes)
    requires AtomTyped(k, a)
    ensures |r| > 0
  {
    if IsNumeric(k) then BE(a.n, Width(k)) else BE(|a.s|, 4) + a.s
  }

  /** Arrays and maps: byte count, element count, elements. An empty container counts zero bytes. */
  function Encode(t: Type, v: Value): (r: bytes)
    requires Typed(t, v)
    ensures |r| > 0
    decreases v, 1
  {
    match t
    case Scalar(k) => EncodeAtom(v.atom, k)
    case Array(elem) =>
      var body := EncodeElems(elem, v.elems);
      BE(|body|, 4) + BE(|v.elems|, 4) + body
    case Map(k, elem) =>
      var body := EncodeEntries(k, elem, v.entries);
      BE(|body|, 4) + BE(|v.entries|, 4) + body
  }

  function EncodeElems(t: Type, es: seq<Value>): (r: bytes)
    requires forall e <- es :: Typed(t, e)
    ensures |r| >= |es|
    decreases es, 0
  {
    if es == [] then [] else Encode(t, es[0]) + EncodeElems(t, es[1..])
  }

  function EncodeEntries(k: Kind, t: Type, es: seq<Entry>): (r: bytes)
    requires forall e <- es :: EntryTyped(k, t, e)
    ensures |r| >= |es|
    decreases es, 0
  {
    if es == [] then []
    else EncodeEntry(k, t, es[0]) + EncodeEntries(k, t, es[1..])
  }

  function EncodeEntry(k: Kind, t: Type, e: Entry): (r: bytes)
    requires EntryTyped(k, t, e)
    ensures |r| > 0
    decreases e, 0
  {
    EncodeAtom(e.key, k) + Encode(t, e.val)
  }

  predicate CountsFit(v: Value)
    decreases v
  {
    match v
    case Leaf(_) => true
    case List(es) => |es| < MAX_ELEM_COUNT && forall e <- es :: CountsFit(e)
    case Dict(es) => |es| < MAX_ELEM_COUNT && forall e <- es :: CountsFit(e.val)
  }

  /** The size and count limits of the format. */
  predicate Fits(t: Type, v: Value)
    requires Typed(t, v)
  {
    |Encode(t, v)| <= MAX_BYTES_PER_BUFFER && CountsFit(v)
  }

  // ---- What the serializer writes ----

  /** A status and the bytes appended before it was returned. */
  datatype Written = Written(ret: Status, out: bytes)

  function WriteAtom(a: Atom, k: Kind): (w: Written)
    requires AtomTyped(k, a)
  {
    if IsNumeric(k) then Written(0, BE(a.n, Width(k)))
    else
      var n := |a.s| % UINT32_LIMIT;
      if n >= MAX_BYTES_PER_BUFFER then Written(E_RANGE, [])
      else Written(0, BE(n, 4) + a.s[..n])
  }

  /**
   What one call appends, for any signature. An error inside a container ends it with its byte
   count left at zero and is not reported.
   */
  function Write(t: Type, v: Value, sig: string): (w: Written)
    requires Typed(t, v)
    decreases v, 1
  {
    match t
    case Scalar(k) => WriteAtom(v.atom, k)
    case Array(elem) =>
      if !Bracketed(sig, '(', ')') then Written(E_INVAL, [])
      else WriteContainer(|v.elems|, WriteElems(elem, v.elems, Strip(sig)))
    case Map(k, elem) =>
      if !Bracketed(sig, '[', ']') then Written(E_INVAL, [])
      else if |sig| == 2 then Written(E_FAULT, [])
      else WriteContainer(|v.entries|, WriteEntries(k, elem, v.entries, Strip(sig)[1..]))
  }

  function WriteContainer(count: nat, body: Written): Written {
    if count == 0 then Written(0, BE(0, 4) + BE(0, 4))
    else if count >= MAX_ELEM_COUNT then Written(E_RANGE, BE(0, 4))
    else Written(0, BE(if body.ret < 0 then 0 else |body.out|, 4) + BE(count, 4) + body.out)
  }

  function WriteElems(t: Type, es: seq<Value>, sig: string): (w: Written)
    requires forall e <- es :: Typed(t, e)
    decreases es, 0
  {
    if es == [] then Written(0, [])
    else
      var first := Write(t, es[0], sig);
      if first.ret < 0 then first
      else
        var rest := WriteElems(t, es[1..], sig);
        Written(rest.ret, first.out + rest.out)
  }

  function WriteEntries(k: Kind, t: Type, es: seq<Entry>, sig: string): (w: Written)
    requires forall e <- es :: EntryTyped(k, t, e)
    decreases es, 0
  {
    if es == [] then Written(0, [])
    else
      var first := WriteEntry(k, t, es[0], sig);
      if first.ret < 0 then first
      else
        var rest := WriteEntries(k, t, es[1..], sig);
        Written(rest.ret, first.out + rest.out)
  }

  function WriteEntry(k: Kind, t: Type, e: Entry, sig: string): (w: Written)
    requires EntryTyped(k, t, e)
    decreases e, 0
  {
    var key := WriteAtom(e.key, k);
    if key.ret < 0 then key
    else
      var val := Write(t, e.val, sig);
      Written(val.ret, key.out + val.out)
  }

  // ---- What the deserializer reads ----

  /** A status, the value left in the target, and the bytes not consumed. */
  datatype Read<+T> = Read(ret: Status, val: T, rest: bytes)

  function DefaultAtom(k: Kind): Atom {
    if IsNumeric(k) then Num(0) else Blob([])
  }

  function Default(t: Type): Value {
    match t
    case Scalar(k) => Leaf(DefaultAtom(k))
    case Array(_) => List([])
    case Map(_, _) => Dict([])
  }

  function Defaults(t: Type, n: nat): (r: seq<Value>)
    ensures |r| == n
  {
    if n == 0 then [] else [Default(t)] + Defaults(t, n - 1)
  }

  function ReadNum(w: nat, s: bytes): Read<nat>
    requires w > 0
  {
    if s == [] then Read(E_INVAL, 0, s)
    else if |s| < w then Read(E_RANGE, 0, s)
    else Read(0, FromBE(s[..w]), s[w..])
  }

  /** A string is cut at the end of the window. A bytearray is not: there the source reads on past
      the window, and this function stops with E_FAULT. */
  function ReadAtom(k: Kind, s: bytes): Read<Atom> {
    if IsNumeric(k) then
      var r := ReadNum(Width(k), s);
      Read(r.ret, Num(r.val), r.rest)
    else
      var r := ReadNum(4, s);
      if r.ret < 0 || r.val == 0 then Read(r.ret, Blob([]), r.rest)
      else if k == Str then
        var n := Min(r.val, |r.rest|);
        Read(0, Blob(r.rest[..n]), r.rest[n..])
      else if r.val > BUF_MAX_SIZE then Read(E_INVAL, Blob([]), r.rest)
      else if r.val > |r.rest| then Read(E_FAULT, Blob([]), r.rest)
      else Read(0, Blob(r.rest[..r.val]), r.rest[r.val..])
  }

  function Decode(t: Type, sig: string, s: bytes): Read<Value>
    decreases t, 0
  {
    match t
    case Scalar(k) =>
      var r := ReadAtom(k, s);
      Read(r.ret, Leaf(r.val), r.rest)
    case Array(elem) =>
      if s == [] || |s| < HDR_SIZE || !Bracketed(sig, '(', ')') then Read(E_INVAL, List([]), s)
      else
        var size, count := FromBE(s[..4]), FromBE(s[4..8]);
        if size > MAX_BYTES_PER_BUFFER then Read(E_RANGE, List([]), s[4..])
        else if size == 0 || count == 0 || count >= MAX_ELEM_COUNT then Read(0, List([]), s[8..])
        else
          var r := DecodeElems(elem, Strip(sig), s[8..], count);
          Read(0, List(r.val), r.rest)
    case Map(k, elem) =>
      if s == [] || |s| < HDR_SIZE || !Bracketed(sig, '[', ']') then Read(E_INVAL, Dict([]), s)
      else if |sig| == 2 then Read(E_FAULT, Dict([]), s)
      else
        var size, count := FromBE(s[..4]), FromBE(s[4..8]);
        if size > MAX_BYTES_PER_BUFFER then Read(E_RANGE, Dict([]), s[4..])
        else if count == 0 then Read(0, Dict([]), s[8..])
        else if count >= MAX_ELEM_COUNT then Read(E_RANGE, Dict([]), s[8..])
        else
          var r := DecodeEntries(k, elem, Strip(sig)[1..], s[8..], count, []);
          var ret := if r.ret < 0 then r.ret else if |s| - 8 - |r.rest| != size then E_BADMSG else 0;
          Read(ret, Dict(r.val), r.rest)
  }

  /** The vector is sized first; elements after a failed one keep their default value. */
  function DecodeElems(t: Type, sig: string, s: bytes, n: nat): (r: Read<seq<Value>>)
    ensures |r.val| == n
    decreases t, 1, n
  {
    if n == 0 then Read(0, [], s)
    else
      var first := Decode(t, sig, s);
      if first.ret < 0 then Read(first.ret, [first.val] + Defaults(t, n - 1), first.rest)
      else
        var r := DecodeElems(t, sig, first.rest, n - 1);
        Read(r.ret, [first.val] + r.val, r.rest)
  }

  /** std::map::insert: the entry goes to the place of its key, unless one with that key is there. */
  function Insert(k: Kind, es: seq<Entry>, key: Atom, val: Value): (r: seq<Entry>)
    ensures |es| <= |r| <= |es| + 1
  {
    if es == [] || Before(k, key, es[0].key) then [Entry(key, val)] + es
    else if Before(k, es[0].key, key) then [es[0]] + Insert(k, es[1..], key, val)
    else es
  }

  function DecodeEntries(k: Kind, t: Type, sig: string, s: bytes, n: nat, acc: seq<Entry>): Read<seq<Entry>>
    decreases t, 1, n
  {
    if n == 0 then Read(0, acc, s)
    else
      var key := ReadAtom(k, s);
      if key.ret < 0 then Read(key.ret, acc, key.rest)
      else
        var val := Decode(t, sig, key.rest);
        if val.ret < 0 then Read(val.ret, acc, val.rest)
        else DecodeEntries(k, t, sig, val.rest, n - 1, Insert(k, acc, key.val, val.val))
  }
}
