/** The laws of the ridl format: exact framing, the round trip, and when success can be believed. */
module RidlProofs {
  import opened Bytes
  import opened Buffers
  import opened Ridl

  lemma StripBrackets(open: char, body: string, close: char)
    ensures var s := [open] + body + [close]; Bracketed(s, open, close) && Strip(s) == body
  {
  }

  /** Stripping one layer off the signature of a container leaves the signature of its elements. */
  lemma {:induction false} StripSig(t: Type)
    ensures t.Array? ==> Bracketed(Sig(t), '(', ')') && Strip(Sig(t)) == Sig(t.elem)
    ensures t.Map? ==> Bracketed(Sig(t), '[', ']') && |Sig(t)| > 2 && Strip(Sig(t))[1..] == Sig(t.elem)
  {
    match t
    case Scalar(_) =>
    case Array(elem) => StripBrackets('(', Sig(elem), ')');
    case Map(k, elem) =>
      StripBrackets('[', [KindSig(k)] + Sig(elem), ']');
      assert Sig(t) == ['['] + ([KindSig(k)] + Sig(elem)) + [']'];
  }

  // ---- The order of keys ----

  lemma {:induction false} BytesBeforeLaws(a: bytes, b: bytes, c: bytes)
    ensures !(BytesBefore(a, b) && BytesBefore(b, a))
    ensures BytesBefore(a, b) && BytesBefore(b, c) ==> BytesBefore(a, c)
    ensures a == b || BytesBefore(a, b) || BytesBefore(b, a)
  {
    if a != [] && b != [] {
      BytesBeforeLaws(a[1..], b[1..], if c == [] then [] else c[1..]);
      assert a == [a[0]] + a[1..] && b == [b[0]] + b[1..];
    }
  }

  /** On keys of one kind the order is strict, transitive and total. */
  lemma KeyOrder(k: Kind, a: Atom, b: Atom, c: Atom)
    ensures !(Before(k, a, b) && Before(k, b, a)) && !Before(k, a, a)
    ensures Before(k, a, b) && Before(k, b, c) ==> Before(k, a, c)
    ensures AtomTyped(k, a) && AtomTyped(k, b) ==> a == b || Before(k, a, b) || Before(k, b, a)
  {
    hide BytesBefore, Pow256;
    Pow256Values();
    if a.Blob? {
      BytesBeforeLaws(a.s, a.s, a.s);
    }
    if a.Blob? && b.Blob? {
      BytesBeforeLaws(a.s, b.s, if c.Blob? then c.s else []);
    }
  }

  /** A key after all others is added at the end. */
  lemma {:induction false} InsertLast(k: Kind, es: seq<Entry>, key: Atom, val: Value)
    requires forall e <- es :: Before(k, e.key, key)
    ensures Insert(k, es, key, val) == es + [Entry(key, val)]
  {
    hide Before;
    if es != [] {
      assert es[0] in es;
      KeyOrder(k, key, es[0].key, key);
      assert forall e <- es[1..] :: e in es;
      InsertLast(k, es[1..], key, val);
      assert es == [es[0]] + es[1..];
    }
  }

  /** Nothing that was there is lost or replaced. */
  lemma {:induction false} InsertKeeps(k: Kind, es: seq<Entry>, key: Atom, val: Value)
    ensures forall e <- es :: e in Insert(k, es, key, val)
    ensures |Insert(k, es, key, val)| > |es| ==> Entry(key, val) in Insert(k, es, key, val)
    ensures forall e <- Insert(k, es, key, val) :: e in es || e == Entry(key, val)
  {
    hide Before;
    if es != [] {
      InsertKeeps(k, es[1..], key, val);
    }
  }

  lemma FrontAscending(k: Kind, e: Entry, es: seq<Entry>)
    requires Ascending(k, es) && forall x <- es :: Before(k, e.key, x.key)
    ensures Ascending(k, [e] + es)
  {
    hide Before;
  }

  lemma BackAscending(k: Kind, es: seq<Entry>)
    requires es != [] && Ascending(k, es)
    ensures Ascending(k, es[1..]) && forall e <- es[1..] :: Before(k, es[0].key, e.key)
  {
    hide Before;
  }

  /** The entries stay in the order of their keys. */
  lemma {:induction false} InsertAscending(k: Kind, es: seq<Entry>, key: Atom, val: Value)
    requires Ascending(k, es)
    ensures Ascending(k, Insert(k, es, key, val))
  {
    hide Before, Ascending;
    if es == [] {
      OneAscending(k, Entry(key, val));
    } else {
      BackAscending(k, es);
      if Before(k, key, es[0].key) {
        forall e <- es ensures Before(k, key, e.key) {
          assert e in [es[0]] + es[1..];
          KeyOrder(k, key, es[0].key, e.key);
        }
        FrontAscending(k, Entry(key, val), es);
      } else if Before(k, es[0].key, key) {
        InsertAscending(k, es[1..], key, val);
        InsertKeeps(k, es[1..], key, val);
        FrontAscending(k, es[0], Insert(k, es[1..], key, val));
      }
    }
  }

  lemma OneAscending(k: Kind, e: Entry)
    ensures Ascending(k, [e] + [])
  {
  }

  predicate HasKey(es: seq<Entry>, key: Atom) {
    exists e <- es :: e.key == key
  }

  /** An entry is dropped exactly when its key is there. */
  lemma {:induction false} InsertDrops(k: Kind, es: seq<Entry>, key: Atom, val: Value)
    requires Ascending(k, es) && AtomTyped(k, key) && forall e <- es :: AtomTyped(k, e.key)
    ensures Insert(k, es, key, val) == es <==> HasKey(es, key)
    ensures |Insert(k, es, key, val)| == |es| <==> HasKey(es, key)
  {
    hide Before, Ascending, AtomTyped;
    if es != [] {
      var first, later := es[0], es[1..];
      assert es == [first] + later && first in es;
      BackAscending(k, es);
      KeyOrder(k, key, first.key, key);
      if Before(k, key, first.key) {
        forall e <- later ensures e.key != key {
          KeyOrder(k, key, first.key, e.key);
          KeyOrder(k, key, key, key);
        }
      } else if Before(k, first.key, key) {
        assert forall e <- later :: e in es;
        InsertDrops(k, later, key, val);
        KeyOrder(k, key, key, key);
        assert HasKey(es, key) <==> HasKey(later, key);
      }
    }
  }

  // ---- Round trip ----

  lemma ReadNumOfBE(n: nat, w: nat, rest: bytes)
    requires n < Pow256(w) && w > 0
    ensures ReadNum(w, BE(n, w) + rest) == Read(0, n, rest)
  {
    FromBEOfBE(n, w);
    var s := BE(n, w) + rest;
    assert s[..w] == BE(n, w) && s[w..] == rest;
  }

  lemma ReadAtomOfEncode(k: Kind, a: Atom, rest: bytes)
    requires AtomTyped(k, a) && |EncodeAtom(a, k)| <= MAX_BYTES_PER_BUFFER
    ensures ReadAtom(k, EncodeAtom(a, k) + rest) == Read(0, a, rest)
  {
    hide BE, FromBE, ReadNum;
    Pow256Values();
    if IsNumeric(k) {
      ReadNumOfBE(a.n, Width(k), rest);
    } else {
      assert EncodeAtom(a, k) + rest == BE(|a.s|, 4) + (a.s + rest);
      ReadNumOfBE(|a.s|, 4, a.s + rest);
      assert (a.s + rest)[..|a.s|] == a.s && (a.s + rest)[|a.s|..] == rest;
    }
  }

  /** The eight header bytes of a container, read back. */
  lemma ReadHeader(size: nat, count: nat, body: bytes, rest: bytes)
    requires size < UINT32_LIMIT && count < UINT32_LIMIT
    ensures var s := BE(size, 4) + BE(count, 4) + body + rest;
            && |s| >= HDR_SIZE && FromBE(s[..4]) == size && FromBE(s[4..8]) == count
            && s[8..] == body + rest
  {
    hide BE, FromBE;
    var s := BE(size, 4) + BE(count, 4) + body + rest;
    FromBEOfBE4(size);
    FromBEOfBE4(count);
    assert s[..4] == BE(size, 4) && s[4..8] == BE(count, 4);
  }

  /**
   Decoding an encoding followed by any bytes gives the value back and consumes the encoding to the
   last byte and no further.
   */
  lemma {:induction false} RoundTrip(t: Type, v: Value, rest: bytes)
    requires Typed(t, v) && Fits(t, v)
    ensures Decode(t, Sig(t), Encode(t, v) + rest) == Read(0, v, rest)
    decreases v, 2
  {
    match t
    case Scalar(k) => ReadAtomOfEncode(k, v.atom, rest);
    case Array(_) => RoundTripArray(t, v, rest);
    case Map(_, _) => RoundTripMap(t, v, rest);
  }

  lemma {:induction false} RoundTripArray(t: Type, v: Value, rest: bytes)
    requires t.Array? && Typed(t, v) && Fits(t, v)
    ensures Decode(t, Sig(t), Encode(t, v) + rest) == Read(0, v, rest)
    decreases v, 1
  {
    StripSig(t);
    var body := EncodeElems(t.elem, v.elems);
    ReadHeader(|body|, |v.elems|, body, rest);
    RoundTripElems(t.elem, v.elems, rest);
  }

  lemma {:induction false} RoundTripMap(t: Type, v: Value, rest: bytes)
    requires t.Map? && Typed(t, v) && Fits(t, v)
    ensures Decode(t, Sig(t), Encode(t, v) + rest) == Read(0, v, rest)
    decreases v, 1
  {
    StripSig(t);
    var k, elem, es := t.key, t.elem, v.entries;
    var body := EncodeEntries(k, elem, es);
    assert Encode(t, v) == BE(|body|, 4) + BE(|es|, 4) + body;
    ReadHeader(|body|, |es|, body, rest);
    assert DecodeEntries(k, elem, Sig(elem), body + rest, |es|, []) == Read(0, es, rest) by {
      RoundTripEntries(k, elem, es, rest, []);
      assert [] + es == es;
    }
    DecodeMap(t, Sig(t), Encode(t, v) + rest, |body|, es, rest);
  }

  /** A map whose header and entries read back decodes to them. */
  lemma DecodeMap(t: Type, sig: string, s: bytes, size: nat, es: seq<Entry>, rest: bytes)
    requires t.Map? && Bracketed(sig, '[', ']') && |sig| > 2
    requires |s| >= HDR_SIZE && FromBE(s[..4]) == size <= MAX_BYTES_PER_BUFFER
    requires FromBE(s[4..8]) == |es| < MAX_ELEM_COUNT && |s| - 8 - |rest| == size
    requires |es| == 0 ==> s[8..] == rest
    requires DecodeEntries(t.key, t.elem, Strip(sig)[1..], s[8..], |es|, []) == Read(0, es, rest)
    ensures Decode(t, sig, s) == Read(0, Dict(es), rest)
  {
  }

  /** One entry that reads back, then the others. */
  lemma DecodeOneEntry(k: Kind, t: Type, sig: string, s: bytes, n: nat, acc: seq<Entry>,
                       e: Entry, afterKey: bytes, tail: bytes)
    requires n > 0 && ReadAtom(k, s) == Read(0, e.key, afterKey)
    requires Decode(t, sig, afterKey) == Read(0, e.val, tail)
    ensures DecodeEntries(k, t, sig, s, n, acc)
            == DecodeEntries(k, t, sig, tail, n - 1, Insert(k, acc, e.key, e.val))
  {
  }

  lemma {:induction false} RoundTripElems(t: Type, es: seq<Value>, rest: bytes)
    requires forall e <- es :: Typed(t, e) && CountsFit(e)
    requires |EncodeElems(t, es)| <= MAX_BYTES_PER_BUFFER
    ensures DecodeElems(t, Sig(t), EncodeElems(t, es) + rest, |es|) == Read(0, es, rest)
    decreases es, 0
  {
    if es == [] {
      assert EncodeElems(t, es) + rest == rest;
    } else {
      var tail := EncodeElems(t, es[1..]) + rest;
      assert EncodeElems(t, es) + rest == Encode(t, es[0]) + tail;
      RoundTrip(t, es[0], tail);
      RoundTripElems(t, es[1..], rest);
      assert es == [es[0]] + es[1..];
    }
  }

  lemma Assoc(a: bytes, b: bytes, c: bytes, d: bytes)
    ensures a + b + c + d == a + (b + (c + d))
  {
  }

  /** Entries that fit, to be read after the ones in `acc`. */
  predicate Ready(k: Kind, t: Type, es: seq<Entry>, acc: seq<Entry>) {
    && (forall e <- es :: EntryTyped(k, t, e) && CountsFit(e.val))
    && Ascending(k, acc + es)
    && |EncodeEntries(k, t, es)| <= MAX_BYTES_PER_BUFFER
  }

  lemma {:induction false} RoundTripEntries(k: Kind, t: Type, es: seq<Entry>, rest: bytes, acc: seq<Entry>)
    requires Ready(k, t, es, acc)
    ensures DecodeEntries(k, t, Sig(t), EncodeEntries(k, t, es) + rest, |es|, acc) == Read(0, acc + es, rest)
    decreases es, 1
  {
    if es == [] {
      assert acc + es == acc && EncodeEntries(k, t, es) + rest == rest;
    } else {
      assert acc + es == acc + [es[0]] + es[1..];
      RoundTripFirst(k, t, es, rest, acc);
      RoundTripEntries(k, t, es[1..], rest, acc + [es[0]]);
    }
  }

  lemma {:induction false} RoundTripFirst(k: Kind, t: Type, es: seq<Entry>, rest: bytes, acc: seq<Entry>)
    requires es != [] && Ready(k, t, es, acc)
    ensures Ready(k, t, es[1..], acc + [es[0]])
    ensures DecodeEntries(k, t, Sig(t), EncodeEntries(k, t, es) + rest, |es|, acc)
            == DecodeEntries(k, t, Sig(t), EncodeEntries(k, t, es[1..]) + rest, |es[1..]|, acc + [es[0]])
    decreases es, 0
  {
    hide Insert, Decode, DecodeEntries, ReadAtom, EncodeAtom, Encode, EncodeEntries, Ascending, Typed;
    var e := es[0];
    FreshKey(k, t, es, acc);
    EntriesFirst(k, t, es);
    var tail := EncodeEntries(k, t, es[1..]) + rest;
    var afterKey := Encode(t, e.val) + tail;
    ReadAtomOfEncode(k, e.key, afterKey);
    assert e.val < e;
    RoundTrip(t, e.val, tail);
    DecodeOneEntry(k, t, Sig(t), EncodeAtom(e.key, k) + afterKey, |es|, acc, e, afterKey, tail);
    Assoc(EncodeAtom(e.key, k), Encode(t, e.val), EncodeEntries(k, t, es[1..]), rest);
  }

  lemma EntriesFirst(k: Kind, t: Type, es: seq<Entry>)
    requires es != [] && forall e <- es :: EntryTyped(k, t, e)
    ensures EntryTyped(k, t, es[0]) && forall e <- es[1..] :: EntryTyped(k, t, e)
    ensures EncodeEntries(k, t, es)
         == EncodeAtom(es[0].key, k) + Encode(t, es[0].val) + EncodeEntries(k, t, es[1..])
  {
    hide Encode, EncodeAtom, EntryTyped;
    assert es[0] in es && forall e <- es[1..] :: e in es;
  }

  /** The next key comes after the others and is added at the end, and so it goes on. */
  lemma FreshKey(k: Kind, t: Type, es: seq<Entry>, acc: seq<Entry>)
    requires es != [] && Ready(k, t, es, acc)
    ensures Insert(k, acc, es[0].key, es[0].val) == acc + [es[0]]
    ensures Ready(k, t, es[1..], acc + [es[0]])
    ensures EntryTyped(k, t, es[0]) && |EncodeAtom(es[0].key, k)| <= MAX_BYTES_PER_BUFFER
    ensures Fits(t, es[0].val)
  {
    hide Encode, EncodeAtom, EncodeEntries, EntryTyped, CountsFit, Insert, Before;
    NextIsLast(k, es, acc);
    InsertLast(k, acc, es[0].key, es[0].val);
    assert es[0] in es && EntryTyped(k, t, es[0]);
    FirstEntrySize(k, t, es);
    assert forall e <- es[1..] :: e in es;
  }

  lemma FirstEntrySize(k: Kind, t: Type, es: seq<Entry>)
    requires es != [] && forall e <- es :: EntryTyped(k, t, e)
    ensures EntryTyped(k, t, es[0]) && Typed(t, es[0].val) && AtomTyped(k, es[0].key)
    ensures forall e <- es[1..] :: EntryTyped(k, t, e)
    ensures |EncodeEntries(k, t, es)| ==
            |EncodeAtom(es[0].key, k)| + |Encode(t, es[0].val)| + |EncodeEntries(k, t, es[1..])|
  {
    hide Encode, EncodeAtom, EncodeEntries;
    EntriesFirst(k, t, es);
  }

  /** The next of some ascending entries comes after the ones before it. */
  lemma NextIsLast(k: Kind, es: seq<Entry>, acc: seq<Entry>)
    requires es != [] && Ascending(k, acc + es)
    ensures forall a <- acc :: Before(k, a.key, es[0].key)
    ensures Ascending(k, acc + [es[0]] + es[1..])
  {
    hide Before;
    assert acc + es == acc + [es[0]] + es[1..];
    forall a <- acc ensures Before(k, a.key, es[0].key) {
      var i :| 0 <= i < |acc| && acc[i] == a;
      assert (acc + es)[i] == a && (acc + es)[|acc|] == es[0];
    }
  }

  // ---- Success and the encoding ----

  predicate AtomClean(k: Kind, a: Atom)
    requires AtomTyped(k, a)
  {
    a.Blob? ==> |a.s| < MAX_BYTES_PER_BUFFER
  }

  /**
   What a caller can check before serializing: strings and counts under their limits, and for every
   container reached, the brackets of its own type around the signature.
   */
  predicate Clean(t: Type, v: Value, sig: string)
    requires Typed(t, v)
    decreases v
  {
    match t
    case Scalar(k) => AtomClean(k, v.atom)
    case Array(elem) =>
      && Bracketed(sig, '(', ')') && |v.elems| < MAX_ELEM_COUNT
      && forall e <- v.elems :: Clean(elem, e, Strip(sig))
    case Map(k, elem) =>
      && Bracketed(sig, '[', ']') && |sig| > 2 && |v.entries| < MAX_ELEM_COUNT
      && forall e <- v.entries :: EntryClean(k, elem, e, Strip(sig)[1..])
  }

  predicate EntryClean(k: Kind, t: Type, e: Entry, sig: string)
    requires EntryTyped(k, t, e)
    decreases e
  {
    AtomClean(k, e.key) && Clean(t, e.val, sig)
  }

  /** Two byte strings that part ways inside both. */
  ghost predicate Diverge(a: bytes, b: bytes) {
    exists i :: 0 <= i < |a| && i < |b| && a[i] != b[i]
  }

  /** The signature of the type itself is always clean within the limits. */
  lemma {:induction false} OwnSigIsClean(t: Type, v: Value)
    requires Typed(t, v) && Fits(t, v)
    ensures Clean(t, v, Sig(t))
    decreases v, 1
  {
    StripSig(t);
    match t
    case Scalar(k) =>
    case Array(elem) =>
      forall i | 0 <= i < |v.elems|
        ensures Clean(elem, v.elems[i], Sig(elem))
      {
        ElemFits(elem, v.elems, i);
        OwnSigIsClean(elem, v.elems[i]);
      }
    case Map(k, elem) =>
      forall i | 0 <= i < |v.entries|
        ensures EntryClean(k, elem, v.entries[i], Sig(elem))
      {
        var e := v.entries[i];
        assert EntryTyped(k, elem, e) && e.val < e;
        EntryFits(k, elem, v.entries, i);
        OwnSigIsClean(elem, e.val);
      }
  }

  lemma ElemFits(t: Type, es: seq<Value>, i: nat)
    requires i < |es| && forall e <- es :: Typed(t, e)
    ensures |Encode(t, es[i])| <= |EncodeElems(t, es)|
  {
    if i > 0 {
      ElemFits(t, es[1..], i - 1);
    }
  }

  lemma EntryFits(k: Kind, t: Type, es: seq<Entry>, i: nat)
    requires i < |es| && forall e <- es :: EntryTyped(k, t, e)
    ensures |EncodeEntry(k, t, es[i])| <= |EncodeEntries(k, t, es)|
  {
    if i > 0 {
      EntryFits(k, t, es[1..], i - 1);
    }
  }

  lemma HeaderDiverges(n: nat, a: bytes, b: bytes)
    requires 0 < n < UINT32_LIMIT
    ensures Diverge(BE(0, 4) + a, BE(n, 4) + b)
  {
    FromBEOfBE4(0);
    FromBEOfBE4(n);
    assert BE(0, 4) != BE(n, 4);
    var i :| 0 <= i < 4 && BE(0, 4)[i] != BE(n, 4)[i];
    assert (BE(0, 4) + a)[i] != (BE(n, 4) + b)[i];
  }

  lemma DivergeLater(p: bytes, a: bytes, b: bytes)
    requires Diverge(a, b)
    ensures Diverge(p + a, p + b)
  {
    BodyDiverges(p, p, a, b);
  }

  lemma DivergeEarlier(a: bytes, b: bytes, x: bytes, y: bytes)
    requires Diverge(a, b)
    ensures Diverge(a + x, b + y)
  {
    var i :| 0 <= i < |a| && i < |b| && a[i] != b[i];
    assert (a + x)[i] != (b + y)[i];
  }

  /** Success with other bytes than the encoding, or an error. */
  ghost predicate Spoiled(w: Written, enc: bytes) {
    w.ret < 0 || Diverge(w.out, enc)
  }

  /**
   A call reports success and has written the encoding exactly when the value is clean for the
   signature. When it is not, either the call fails or the bytes it wrote differ from the encoding
   somewhere inside both: success alone proves nothing.
   */
  lemma {:induction false} WriteExact(t: Type, v: Value, sig: string)
    requires Typed(t, v) && |Encode(t, v)| < UINT32_LIMIT
    ensures Clean(t, v, sig) ==> Write(t, v, sig) == Written(0, Encode(t, v))
    ensures !Clean(t, v, sig) ==> Spoiled(Write(t, v, sig), Encode(t, v))
    decreases v, 2
  {
    hide BE, WriteContainer, WriteElems, WriteEntries, EncodeElems, EncodeEntries, WriteAtom, EncodeAtom, AtomClean;
    match t
    case Scalar(k) => WriteAtomExact(k, v.atom);
    case Array(elem) =>
      if Bracketed(sig, '(', ')') {
        NothingEncoded(elem);
        WriteElemsExact(elem, v.elems, Strip(sig));
        ContainerExact(|v.elems|, WriteElems(elem, v.elems, Strip(sig)), EncodeElems(elem, v.elems));
      }
    case Map(k, elem) =>
      if Bracketed(sig, '[', ']') && |sig| > 2 {
        var inner := Strip(sig)[1..];
        NoEntriesEncoded(k, elem);
        WriteEntriesExact(k, elem, v.entries, inner);
        ContainerExact(|v.entries|, WriteEntries(k, elem, v.entries, inner), EncodeEntries(k, elem, v.entries));
      }
  }

  lemma NothingEncoded(t: Type)
    ensures EncodeElems(t, []) == []
  {
  }

  lemma NoEntriesEncoded(k: Kind, t: Type)
    ensures EncodeEntries(k, t, []) == []
  {
  }

  lemma WriteAtomExact(k: Kind, a: Atom)
    requires AtomTyped(k, a) && |EncodeAtom(a, k)| < UINT32_LIMIT
    ensures AtomClean(k, a) ==> WriteAtom(a, k) == Written(0, EncodeAtom(a, k))
    ensures !AtomClean(k, a) ==> WriteAtom(a, k).ret < 0
  {
    hide BE;
  }

  lemma ContainerExact(count: nat, body: Written, enc: bytes)
    requires count <= |enc| < UINT32_LIMIT - 8 && (count == 0 ==> enc == [])
    ensures var w, full := WriteContainer(count, body), BE(|enc|, 4) + BE(count, 4) + enc;
            && (count < MAX_ELEM_COUNT && (count == 0 || body == Written(0, enc)) ==> w == Written(0, full))
            && (count >= MAX_ELEM_COUNT || (count > 0 && Spoiled(body, enc)) ==> Spoiled(w, full))
  {
    hide BE;
    if 0 < count < MAX_ELEM_COUNT && Spoiled(body, enc) {
      var c := BE(count, 4);
      if body.ret < 0 {
        HeaderDiverges(|enc|, c + body.out, c + enc);
        assert BE(0, 4) + c + body.out == BE(0, 4) + (c + body.out);
        assert BE(|enc|, 4) + c + enc == BE(|enc|, 4) + (c + enc);
      } else {
        BodyDiverges(BE(|body.out|, 4) + c, BE(|enc|, 4) + c, body.out, enc);
      }
    }
  }

  lemma BodyDiverges(h: bytes, g: bytes, a: bytes, b: bytes)
    requires |h| == |g| && Diverge(a, b)
    ensures Diverge(h + a, g + b)
  {
    var i :| 0 <= i < |a| && i < |b| && a[i] != b[i];
    assert (h + a)[|h| + i] != (g + b)[|h| + i];
  }

  lemma {:induction false} WriteElemsExact(t: Type, es: seq<Value>, sig: string)
    requires forall e <- es :: Typed(t, e)
    requires |EncodeElems(t, es)| < UINT32_LIMIT
    ensures (forall e <- es :: Clean(t, e, sig)) ==> WriteElems(t, es, sig) == Written(0, EncodeElems(t, es))
    ensures !(forall e <- es :: Clean(t, e, sig)) ==> Spoiled(WriteElems(t, es, sig), EncodeElems(t, es))
    decreases es, 0
  {
    hide Write, Encode, Clean, Typed;
    if es != [] {
      var first, enc := Write(t, es[0], sig), Encode(t, es[0]);
      var rest, encRest := WriteElems(t, es[1..], sig), EncodeElems(t, es[1..]);
      WriteExact(t, es[0], sig);
      WriteElemsExact(t, es[1..], sig);
      assert es == [es[0]] + es[1..];
      if first.ret >= 0 {
        if !Clean(t, es[0], sig) {
          DivergeEarlier(first.out, enc, rest.out, encRest);
        } else if rest.ret >= 0 && Diverge(rest.out, encRest) {
          DivergeLater(enc, rest.out, encRest);
        }
      }
    }
  }

  lemma {:induction false} WriteEntriesExact(k: Kind, t: Type, es: seq<Entry>, sig: string)
    requires forall e <- es :: EntryTyped(k, t, e)
    requires |EncodeEntries(k, t, es)| < UINT32_LIMIT
    ensures (forall e <- es :: EntryClean(k, t, e, sig)) ==>
              WriteEntries(k, t, es, sig) == Written(0, EncodeEntries(k, t, es))
    ensures !(forall e <- es :: EntryClean(k, t, e, sig)) ==>
              Spoiled(WriteEntries(k, t, es, sig), EncodeEntries(k, t, es))
    decreases es, 0
  {
    hide WriteEntry, EncodeEntry, EntryClean, EntryTyped;
    if es != [] {
      var e := es[0];
      var first, enc := WriteEntry(k, t, e, sig), EncodeEntry(k, t, e);
      var rest, encRest := WriteEntries(k, t, es[1..], sig), EncodeEntries(k, t, es[1..]);
      WriteEntryExact(k, t, e, sig);
      WriteEntriesExact(k, t, es[1..], sig);
      assert es == [e] + es[1..];
      if first.ret >= 0 {
        if !EntryClean(k, t, e, sig) {
          DivergeEarlier(first.out, enc, rest.out, encRest);
        } else if rest.ret >= 0 && Diverge(rest.out, encRest) {
          DivergeLater(enc, rest.out, encRest);
        }
      }
    }
  }

  lemma {:induction false} WriteEntryExact(k: Kind, t: Type, e: Entry, sig: string)
    requires EntryTyped(k, t, e) && |EncodeEntry(k, t, e)| < UINT32_LIMIT
    ensures EntryClean(k, t, e, sig) ==> WriteEntry(k, t, e, sig) == Written(0, EncodeEntry(k, t, e))
    ensures !EntryClean(k, t, e, sig) ==> Spoiled(WriteEntry(k, t, e, sig), EncodeEntry(k, t, e))
    decreases e, 0
  {
    WriteAtomExact(k, e.key);
    WriteExact(t, e.val, sig);
    if AtomClean(k, e.key) && Diverge(Write(t, e.val, sig).out, Encode(t, e.val)) {
      DivergeLater(EncodeAtom(e.key, k), Write(t, e.val, sig).out, Encode(t, e.val));
    }
  }

  /** Back-patching a value under the signature of its own type writes its encoding. */
  lemma WriteIsEncode(t: Type, v: Value)
    requires Typed(t, v) && Fits(t, v)
    ensures Write(t, v, Sig(t)) == Written(0, Encode(t, v))
  {
    OwnSigIsClean(t, v);
    WriteExact(t, v, Sig(t));
  }

  /** An inner failure is swallowed: one element under the wrong signature, and the call succeeds. */
  lemma SwallowedError()
    ensures var t, v := Array(Array(Scalar(UInt8))), List([List([Leaf(Num(1))])]);
            && Typed(t, v) && Fits(t, v)
            && Write(t, v, "(B)") == Written(0, BE(0, 4) + BE(1, 4))
            && Write(t, v, "(B)").out != Encode(t, v)
  {
    var elem := Array(Scalar(UInt8));
    var t, inner := Array(elem), List([Leaf(Num(1))]);
    var v := List([inner]);
    Pow256Values();
    assert Typed(elem, inner) && Typed(t, v);
    assert Strip("(B)") == "B";
    assert Write(elem, inner, "B") == Written(E_INVAL, []);
    assert WriteElems(elem, [inner], "B") == Written(E_INVAL, []);
    assert EncodeElems(Scalar(UInt8), [Leaf(Num(1))]) == BE(1, 1);
    assert Encode(elem, inner) == BE(1, 4) + BE(1, 4) + BE(1, 1);
    assert EncodeElems(elem, [inner]) == Encode(elem, inner);
  }
}
