/** What the ridl format looks like byte by byte, in which order keys come, and what a reader refuses. */
module RidlBytes {
  import opened Bytes
  import opened Buffers
  import opened Ridl
  import opened RidlProofs

  // ---- Bytes ----

  /** Every number has the width of its kind, most significant byte first. */
  lemma NumberBytes(k: Kind, n: nat)
    requires IsNumeric(k)
    ensures k == Bool ==> (AtomTyped(k, Num(n)) <==> n < 2)
    ensures k == UInt8 ==> (AtomTyped(k, Num(n)) <==> n < 0x100)
    ensures k in {Int16, UInt16} ==> (AtomTyped(k, Num(n)) <==> n < 0x1_0000)
    ensures k in {Int32, UInt32, Float} ==> (AtomTyped(k, Num(n)) <==> n < 0x1_0000_0000)
    ensures k in {Int64, UInt64, Double} ==> (AtomTyped(k, Num(n)) <==> n < 0x1_0000_0000_0000_0000)
    ensures AtomTyped(k, Num(n)) && k in {Bool, UInt8} ==> EncodeAtom(Num(n), k) == [Digit(n)]
    ensures AtomTyped(k, Num(n)) && k in {Int16, UInt16} ==>
              EncodeAtom(Num(n), k) == [Digit(n / 0x100), Digit(n)]
    ensures AtomTyped(k, Num(n)) && k in {Int32, UInt32, Float} ==>
              EncodeAtom(Num(n), k) == [Digit(n / 0x100_0000), Digit(n / 0x1_0000), Digit(n / 0x100), Digit(n)]
    ensures AtomTyped(k, Num(n)) && k in {Int64, UInt64, Double} ==>
              EncodeAtom(Num(n), k) ==
              [Digit(n / 0x100_0000_0000_0000), Digit(n / 0x1_0000_0000_0000), Digit(n / 0x100_0000_0000),
               Digit(n / 0x1_0000_0000), Digit(n / 0x100_0000), Digit(n / 0x1_0000), Digit(n / 0x100), Digit(n)]
  {
    hide BE, Digit, Pow256;
    Pow256Values();
    NetworkOrder1(n);
    NetworkOrder2(n);
    NetworkOrder4(n);
    NetworkOrder8(n);
  }

  /** A length in four bytes, and what has that length. */
  lemma BlobBytes(k: Kind, s: bytes)
    requires !IsNumeric(k)
    ensures AtomTyped(k, Blob(s))
    ensures var n := |s|;
            EncodeAtom(Blob(s), k) ==
            [Digit(n / 0x100_0000), Digit(n / 0x1_0000), Digit(n / 0x100), Digit(n)] + s
  {
    hide BE, Digit;
    NetworkOrder4(|s|);
  }

  function Header(size: nat, count: nat): bytes {
    [Digit(size / 0x100_0000), Digit(size / 0x1_0000), Digit(size / 0x100), Digit(size),
     Digit(count / 0x100_0000), Digit(count / 0x1_0000), Digit(count / 0x100), Digit(count)]
  }

  lemma HeaderBytes(size: nat, count: nat)
    ensures BE(size, 4) + BE(count, 4) == Header(size, count)
  {
    hide BE, Digit;
    NetworkOrder4(size);
    NetworkOrder4(count);
  }

  /** Byte count, element count, and the elements. */
  lemma ArrayBytes(t: Type, es: seq<Value>)
    requires Typed(Array(t), List(es))
    ensures Encode(Array(t), List(es)) == Header(|EncodeElems(t, es)|, |es|) + EncodeElems(t, es)
  {
    hide BE, EncodeElems, Header;
    HeaderBytes(|EncodeElems(t, es)|, |es|);
  }

  /** One element after the other. */
  lemma ElemBytes(t: Type, e: Value, es: seq<Value>)
    requires Typed(t, e) && forall x <- es :: Typed(t, x)
    ensures EncodeElems(t, []) == [] && EncodeElems(t, [e] + es) == Encode(t, e) + EncodeElems(t, es)
  {
    hide Encode, Typed;
    assert ([e] + es)[1..] == es;
  }

  /** Byte count, entry count, and the entries. */
  lemma MapBytes(k: KeyKind, t: Type, es: seq<Entry>)
    requires Typed(Map(k, t), Dict(es))
    ensures Encode(Map(k, t), Dict(es)) == Header(|EncodeEntries(k, t, es)|, |es|) + EncodeEntries(k, t, es)
  {
    hide BE, EncodeEntries, Header, Ascending;
    HeaderBytes(|EncodeEntries(k, t, es)|, |es|);
  }

  /** Key and value of one entry after the other. */
  lemma EntryBytes(k: Kind, t: Type, e: Entry, es: seq<Entry>)
    requires AtomTyped(k, e.key) && Typed(t, e.val) && forall x <- es :: EntryTyped(k, t, x)
    ensures EncodeEntries(k, t, []) == []
    ensures EncodeEntries(k, t, [e] + es) == EncodeAtom(e.key, k) + Encode(t, e.val) + EncodeEntries(k, t, es)
  {
    hide Encode, EncodeAtom, Typed, AtomTyped;
    assert ([e] + es)[1..] == es;
    EntriesFirst(k, t, [e] + es);
  }

  lemma SampleArrays()
    ensures var t, v := Array(Scalar(UInt16)), List([Leaf(Num(0x0203))]);
            && Typed(t, v) && Typed(t, List([])) && Sig(t) == "(W)"
            && Encode(t, v) == [0, 0, 0, 2, 0, 0, 0, 1, 2, 3] && Encode(t, List([])) == [0, 0, 0, 0, 0, 0, 0, 0]
  {
    hide EncodeElems, EncodeAtom;
    var t, e := Scalar(UInt16), Leaf(Num(0x0203));
    NumberBytes(UInt16, 0x0203);
    ElemBytes(t, e, []);
    assert [e] + [] == [e];
    ArrayBytes(t, [e]);
    ArrayBytes(t, []);
    assert Sig(t) == "W";
  }

  /** A map from strings to arrays of 16-bit numbers, byte by byte, and its signature. */
  lemma WireSample()
    ensures var t := Map(Str, Array(Scalar(UInt16)));
            var v := Dict([Entry(Blob([97]), List([Leaf(Num(0x0203))])), Entry(Blob([98]), List([]))]);
            && Sig(t) == "[s(W)]" && Typed(t, v)
            && Encode(t, v) == [0, 0, 0, 28, 0, 0, 0, 2]
                               + ([0, 0, 0, 1, 97] + [0, 0, 0, 2, 0, 0, 0, 1, 2, 3]
                                  + ([0, 0, 0, 1, 98] + [0, 0, 0, 0, 0, 0, 0, 0]))
  {
    hide EncodeAtom, Encode, EncodeEntries, EncodeElems, Typed, Header, Digit;
    var t := Array(Scalar(UInt16));
    var a, b := Entry(Blob([97]), List([Leaf(Num(0x0203))])), Entry(Blob([98]), List([]));
    SampleArrays();
    SampleTyped(t, a, b);
    SampleKeys();
    EntryBytes(Str, t, b, []);
    EntryBytes(Str, t, a, [b]);
    assert [b] + [] == [b] && [a] + [b] == [a, b];
    MapBytes(Str, t, [a, b]);
    var later := [0, 0, 0, 1, 98] + [0, 0, 0, 0, 0, 0, 0, 0];
    assert later + [] == later;
    assert EncodeEntries(Str, t, [b]) == later;
    assert |EncodeEntries(Str, t, [a, b])| == 28;
  }

  lemma SampleKeys()
    ensures AtomTyped(Str, Blob([97])) && AtomTyped(Str, Blob([98]))
    ensures EncodeAtom(Blob([97]), Str) == [0, 0, 0, 1, 97] && EncodeAtom(Blob([98]), Str) == [0, 0, 0, 1, 98]
    ensures Header(28, 2) == [0, 0, 0, 28, 0, 0, 0, 2]
  {
    BlobBytes(Str, [97]);
    BlobBytes(Str, [98]);
  }

  lemma SampleTyped(t: Type, a: Entry, b: Entry)
    requires a.key == Blob([97]) && b.key == Blob([98]) && Typed(t, a.val) && Typed(t, b.val)
    ensures EntryTyped(Str, t, a) && EntryTyped(Str, t, b) && Typed(Map(Str, t), Dict([a, b]))
  {
    assert BytesBefore([97], [98]);
    assert Ascending(Str, [a, b]);
  }

  // ---- The order of keys ----

  /** Signed keys in two's complement: the negative ones come first. */
  lemma SignedKeys(k: Kind, m: nat, n: nat, half: nat)
    requires (k == Int16 && half == 0x8000) || (k == Int32 && half == 0x8000_0000)
             || (k == Int64 && half == 0x8000_0000_0000_0000)
    requires m < 2 * half && n < 2 * half
    ensures Before(k, Num(m), Num(n)) <==> (m >= half && n < half) || ((m < half <==> n < half) && m < n)
  {
  }

  lemma UnsignedKeys(k: Kind, m: nat, n: nat)
    requires k in {Bool, UInt8, UInt16, UInt32, UInt64}
    ensures Before(k, Num(m), Num(n)) <==> m < n
  {
  }

  /** The first byte that differs decides, and a string comes before what it is the beginning of. */
  ghost predicate FirstDifference(a: bytes, b: bytes, i: nat) {
    i <= |a| && i < |b| && a[..i] == b[..i] && (i == |a| || a[i] < b[i])
  }

  lemma FirstByte(a: bytes, b: bytes, i: nat)
    requires a != [] && b != [] && FirstDifference(a, b, i)
    ensures i > 0 ==> a[0] == b[0]
  {
    if i > 0 {
      assert a[..i][0] == b[..i][0];
    }
  }

  lemma {:induction false} StringKeys(a: bytes, b: bytes)
    ensures BytesBefore(a, b) <==> exists i: nat :: FirstDifference(a, b, i)
  {
    if b == [] {
    } else if a == [] {
      assert FirstDifference(a, b, 0);
    } else if a[0] != b[0] {
      assert a[0] < b[0] ==> FirstDifference(a, b, 0);
      forall i: nat | FirstDifference(a, b, i) ensures i == 0 {
        FirstByte(a, b, i);
      }
    } else {
      StringKeys(a[1..], b[1..]);
      if BytesBefore(a, b) {
        var i: nat :| FirstDifference(a[1..], b[1..], i);
        assert a[..i + 1] == [a[0]] + a[1..][..i] && b[..i + 1] == [b[0]] + b[1..][..i];
        assert FirstDifference(a, b, i + 1);
      }
      if i: nat :| FirstDifference(a, b, i) {
        assert a[1..][..i - 1] == a[..i][1..] && b[1..][..i - 1] == b[..i][1..];
        assert FirstDifference(a[1..], b[1..], i - 1);
      }
    }
  }

  // ---- What is refused, and what is taken all the same ----

  /** A number that is cut off: nothing is consumed. */
  lemma ShortNumber(k: Kind, s: bytes)
    requires IsNumeric(k) && |s| < |EncodeAtom(Num(0), k)|
    ensures ReadAtom(k, s) == Read(if s == [] then E_INVAL else E_RANGE, Num(0), s)
  {
  }

  /** A string longer than the window is the rest of the window; a byte array over 512 MiB is refused. */
  lemma LongBlob(k: Kind, n: nat, s: bytes)
    requires !IsNumeric(k) && |s| < n < UINT32_LIMIT
    ensures k == Str ==> ReadAtom(k, BE(n, 4) + s) == Read(0, Blob(s), [])
    ensures k == ByteArr && n > 536870912 ==> ReadAtom(k, BE(n, 4) + s) == Read(E_INVAL, Blob([]), s)
  {
    hide BE, FromBE, ReadNum;
    Pow256Values();
    ReadNumOfBE(n, 4, s);
    assert s[..|s|] == s && s[|s|..] == [];
  }

  /** No brackets, or not even a header: nothing is consumed, and nothing written. */
  lemma WrongBrackets(t: Type, sig: string, s: bytes)
    requires (t.Array? && !Bracketed(sig, '(', ')')) || (t.Map? && !Bracketed(sig, '[', ']'))
    ensures Decode(t, sig, s) == Read(E_INVAL, Default(t), s)
    ensures forall v :: Typed(t, v) ==> Write(t, v, sig) == Written(E_INVAL, [])
  {
  }

  lemma NoHeader(t: Type, sig: string, s: bytes)
    requires !t.Scalar? && |s| < 8
    ensures Decode(t, sig, s) == Read(E_INVAL, Default(t), s)
  {
  }

  /** An array over the byte limit is refused; one over the element limit, or that counts no bytes, is empty. */
  lemma ArrayLimits(elem: Type, sig: string, size: nat, count: nat, rest: bytes)
    requires Bracketed(sig, '(', ')') && size < UINT32_LIMIT && count < UINT32_LIMIT
    ensures var r := Decode(Array(elem), sig, BE(size, 4) + BE(count, 4) + rest);
            && (size > 16777216 ==> r.ret == E_RANGE && r.val == List([]))
            && (size <= 16777216 ==> r.ret == 0)
            && (size <= 16777216 && (size == 0 || count == 0 || count >= 1000000) ==>
                  r == Read(0, List([]), rest))
            && (0 < size <= 16777216 && 0 < count < 1000000 ==> r.val.List? && |r.val.elems| == count)
  {
    hide BE, FromBE, DecodeElems;
    ReadHeader(size, count, rest, []);
    assert BE(size, 4) + BE(count, 4) + rest + [] == BE(size, 4) + BE(count, 4) + rest && rest + [] == rest;
  }

  /**
   A map over either limit is refused. One that is read with success has consumed the bytes its header
   counts; when its entries are read and take another number of bytes, it is refused.
   */
  lemma MapLimits(k: KeyKind, elem: Type, sig: string, size: nat, count: nat, rest: bytes)
    requires Bracketed(sig, '[', ']') && |sig| > 2 && size < UINT32_LIMIT && count < UINT32_LIMIT
    ensures var r := Decode(Map(k, elem), sig, BE(size, 4) + BE(count, 4) + rest);
            var es := DecodeEntries(k, elem, Strip(sig)[1..], rest, count, []);
            && (size > 16777216 ==> r.ret == E_RANGE && r.val == Dict([]))
            && (size <= 16777216 && count == 0 ==> r == Read(0, Dict([]), rest))
            && (size <= 16777216 && count >= 1000000 ==> r == Read(E_RANGE, Dict([]), rest))
            && (r.ret == 0 && count != 0 ==> |rest| - |r.rest| == size && r == Read(0, Dict(es.val), es.rest))
            && (size <= 16777216 && 0 < count < 1000000 && es.ret == 0 && |rest| - |es.rest| != size ==>
                  r == Read(E_BADMSG, Dict(es.val), es.rest))
  {
    hide BE, FromBE, DecodeEntries;
    ReadHeader(size, count, rest, []);
    assert BE(size, 4) + BE(count, 4) + rest + [] == BE(size, 4) + BE(count, 4) + rest && rest + [] == rest;
  }

  /** The writer refuses a million elements after four zero bytes, and a long string before anything. */
  lemma WriterLimits(t: Type, v: Value, sig: string)
    requires Typed(t, v)
    ensures t.Array? && Bracketed(sig, '(', ')') && |v.elems| >= 1000000 ==>
              Write(t, v, sig) == Written(E_RANGE, [0, 0, 0, 0])
    ensures t.Map? && Bracketed(sig, '[', ']') && |sig| > 2 && |v.entries| >= 1000000 ==>
              Write(t, v, sig) == Written(E_RANGE, [0, 0, 0, 0])
    ensures t.Scalar? && v.atom.Blob? && 16777216 <= |v.atom.s| < UINT32_LIMIT ==>
              Write(t, v, sig) == Written(E_RANGE, [])
  {
    hide BE, WriteElems, WriteEntries;
    NetworkOrder4(0);
  }
}
