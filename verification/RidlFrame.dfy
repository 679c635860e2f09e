/**
 When the success of the ridl reader can be believed: which byte strings begin with the encoding of the
 value that is read from them. `Frame` decides this from the bytes and the signature.
 */
module RidlFrame {
  import opened Bytes
  import opened Buffers
  import opened Ridl
  import opened RidlProofs

  /** The length of a number, string or byte array that is all there. */
  function FrameAtom(k: Kind, s: bytes): (n: Option<nat>)
    ensures n.Some? ==> 0 < n.value <= |s|
  {
    if IsNumeric(k) then
      if |s| >= Width(k) && (k == Bool ==> s[0] < 2) then Some(Width(k)) else None
    else if |s| < 4 then None
    else
      var size := FromBE(s[..4]);
      if 4 + size > |s| || (k == ByteArr && size > BUF_MAX_SIZE) then None else Some(4 + size)
  }

  /**
   The length of a well-formed value under a signature: counts and sizes within the limits and true,
   the keys of maps in order, and the right brackets wherever a container is opened.
   */
  function Frame(t: Type, sig: string, s: bytes): (n: Option<nat>)
    ensures n.Some? ==> 0 < n.value <= |s|
    decreases t, 0
  {
    match t
    case Scalar(k) => FrameAtom(k, s)
    case Array(elem) =>
      if !Bracketed(sig, '(', ')') || !HeaderFits(s) then None
      else FrameBody(s, FrameElems(elem, Strip(sig), s[8..], FromBE(s[4..8])))
    case Map(k, elem) =>
      if !Bracketed(sig, '[', ']') || |sig| == 2 || !HeaderFits(s) then None
      else FrameBody(s, FrameEntries(k, elem, Strip(sig)[1..], s[8..], FromBE(s[4..8]), None))
  }

  predicate HeaderFits(s: bytes) {
    |s| >= HDR_SIZE && FromBE(s[..4]) <= MAX_BYTES_PER_BUFFER && FromBE(s[4..8]) < MAX_ELEM_COUNT
  }

  /** The byte count in the header is the length of what follows. */
  function FrameBody(s: bytes, body: Option<nat>): (n: Option<nat>)
    requires HeaderFits(s) && (body.Some? ==> body.value <= |s| - 8)
    ensures n.Some? ==> 0 < n.value <= |s| && body.Some?
  {
    if body == Some(FromBE(s[..4])) then Some(8 + body.value) else None
  }

  function FrameElems(t: Type, sig: string, s: bytes, count: nat): (n: Option<nat>)
    ensures n.Some? ==> count <= n.value <= |s|
    decreases t, 1, count
  {
    if count == 0 then Some(0)
    else
      var first := Frame(t, sig, s);
      if first.None? then None
      else
        var rest := FrameElems(t, sig, s[first.value..], count - 1);
        if rest.None? then None else Some(first.value + rest.value)
  }

  predicate After(k: Kind, last: Option<Atom>, key: Atom) {
    last.None? || Before(k, last.value, key)
  }

  /** Entries whose keys go up from the last one read. */
  function FrameEntries(k: Kind, t: Type, sig: string, s: bytes, count: nat, last: Option<Atom>): (n: Option<nat>)
    ensures n.Some? ==> n.value <= |s|
    decreases t, 1, count
  {
    if count == 0 then Some(0)
    else
      var first, key := FrameEntry(k, t, sig, s), ReadAtom(k, s).val;
      if first.None? || !After(k, last, key) then None
      else
        var rest := FrameEntries(k, t, sig, s[first.value..], count - 1, Some(key));
        if rest.None? then None else Some(first.value + rest.value)
  }

  function FrameEntry(k: Kind, t: Type, sig: string, s: bytes): (n: Option<nat>)
    ensures n.Some? ==> 0 < n.value <= |s|
    decreases t, 1, 0
  {
    var key := FrameAtom(k, s);
    if key.None? then None
    else
      var val := Frame(t, sig, s[key.value..]);
      if val.None? then None else Some(key.value + val.value)
  }

  /** A typed value under a signature that has the brackets of its own type at every container reached. */
  predicate Fit(t: Type, v: Value, sig: string) {
    Typed(t, v) && BracketsFit(t, v, sig)
  }

  predicate BracketsFit(t: Type, v: Value, sig: string)
    requires Typed(t, v)
    decreases v
  {
    match t
    case Scalar(_) => true
    case Array(elem) => Bracketed(sig, '(', ')') && forall e <- v.elems :: BracketsFit(elem, e, Strip(sig))
    case Map(k, elem) =>
      && Bracketed(sig, '[', ']') && |sig| > 2
      && forall e <- v.entries :: EntryBracketsFit(k, elem, e, Strip(sig)[1..])
  }

  predicate EntryBracketsFit(k: Kind, t: Type, e: Entry, sig: string)
    requires EntryTyped(k, t, e)
    decreases e
  {
    BracketsFit(t, e.val, sig)
  }

  predicate EntryFit(k: Kind, t: Type, e: Entry, sig: string) {
    EntryTyped(k, t, e) && EntryBracketsFit(k, t, e, sig)
  }

  /** A value that can be written under a signature has its brackets in place. */
  lemma {:induction false} CleanFits(t: Type, v: Value, sig: string)
    requires Typed(t, v) && Clean(t, v, sig)
    ensures Fit(t, v, sig)
    decreases v
  {
    match t
    case Scalar(_) =>
    case Array(elem) =>
      forall e <- v.elems ensures BracketsFit(elem, e, Strip(sig)) {
        CleanFits(elem, e, Strip(sig));
      }
    case Map(k, elem) =>
      forall e <- v.entries ensures EntryBracketsFit(k, elem, e, Strip(sig)[1..]) {
        assert EntryTyped(k, elem, e) && EntryClean(k, elem, e, Strip(sig)[1..]) && e.val < e;
        CleanFits(elem, e.val, Strip(sig)[1..]);
      }
  }

  // ---- Scalars ----

  /** A length or a number at the front of the bytes. */
  lemma ReadFront(w: nat, s: bytes)
    requires 0 < w <= |s|
    ensures ReadNum(w, s) == Read(0, FromBE(s[..w]), s[w..]) && BE(FromBE(s[..w]), w) == s[..w]
    ensures FromBE(s[..w]) < Pow256(w)
  {
    BEOfFromBE(s[..w]);
  }

  lemma FromBEOfByte(s: bytes)
    requires |s| >= 1
    ensures FromBE(s[..1]) == s[0] as int
  {
    assert s[..1] == [s[0]] && s[..1][..0] == [];
  }

  lemma PrefixParts(a: bytes, b: bytes, s: bytes)
    ensures a + b <= s <==> a <= s && b <= s[|a|..]
  {
    if a <= s && b <= s[|a|..] {
      assert s == a + s[|a|..];
    }
    if a + b <= s {
      assert s[..|a|] == (a + b)[..|a|] == a;
      assert s[|a|..][..|b|] == s[..|a| + |b|][|a|..] == (a + b)[|a|..] == b;
    }
  }

  /** A length that is known exactly when the encoding is at the front of the bytes. */
  predicate Measures(f: Option<nat>, enc: bytes, s: bytes) {
    (f.Some? ==> f.value <= |s| && enc == s[..f.value]) && (enc <= s ==> f.Some?)
  }

  function Sum(a: Option<nat>, b: Option<nat>): Option<nat> {
    if a.Some? && b.Some? then Some(a.value + b.value) else None
  }

  /** One encoding after the other. */
  lemma Both(a: Option<nat>, b: Option<nat>, first: bytes, second: bytes, s: bytes)
    requires Measures(a, first, s) && (a.Some? ==> a.value <= |s| && Measures(b, second, s[a.value..]))
    ensures Measures(Sum(a, b), first + second, s)
  {
    PrefixParts(first, second, s);
    if a.Some? && b.Some? {
      Joined(s, a.value, b.value);
    }
  }

  lemma Joined(s: bytes, a: nat, b: nat)
    requires a <= a + b <= |s|
    ensures s[..a + b] == s[..a] + s[a..][..b]
  {
  }

  /** A read that succeeds and takes `n` bytes. */
  predicate Took<T>(r: Read<T>, n: nat, s: bytes) {
    n <= |s| && r.ret == 0 && r.rest == s[n..]
  }

  lemma TookRest<T>(r: Read<T>, n: nat, s: bytes)
    requires Took(r, n, s)
    ensures n <= |s| && r.ret == 0 && r.rest == s[n..]
  {
  }

  lemma TookLater<T>(r: Read<T>, s: bytes, a: nat, b: nat)
    requires a <= |s| && Took(r, b, s[a..])
    ensures Took(r, a + b, s)
  {
    assert s[a..][b..] == s[a + b..];
  }

  ghost predicate AtomAgrees(k: Kind, s: bytes) {
    var r, f := ReadAtom(k, s), FrameAtom(k, s);
    && (f.Some? ==> AtomTyped(k, r.val) && Took(r, f.value, s))
    && (AtomTyped(k, r.val) ==> Measures(f, EncodeAtom(r.val, k), s))
  }

  lemma AtomExact(k: Kind, s: bytes)
    ensures AtomAgrees(k, s)
  {
    hide BE, FromBE;
    Pow256Values();
    if IsNumeric(k) {
      NumExact(k, s);
    } else {
      BlobExact(k, s);
    }
  }

  lemma BoolWidth()
    ensures Width(Bool) == 1
  {
  }

  lemma NumExact(k: Kind, s: bytes)
    requires IsNumeric(k)
    ensures AtomAgrees(k, s)
  {
    hide BE, FromBE, Pow256, Width;
    var w := Width(k);
    if |s| >= w {
      ReadFront(w, s);
      if k == Bool {
        BoolWidth();
        FromBEOfByte(s);
      }
    }
  }

  lemma BlobExact(k: Kind, s: bytes)
    requires !IsNumeric(k)
    ensures AtomAgrees(k, s)
  {
    hide BE, FromBE;
    if |s| >= 4 {
      Pow256Values();
      ReadFront(4, s);
      var r, size := ReadAtom(k, s), FromBE(s[..4]);
      if FrameAtom(k, s).Some? {
        assert s[4..][..size] == s[..4 + size][4..];
        assert r.val.s == s[4..][..size] && s[..4 + size] == s[..4] + s[4..][..size];
        assert s[4..][size..] == s[4 + size..];
      } else if EncodeAtom(r.val, k) <= s {
        PrefixParts(BE(|r.val.s|, 4), r.val.s, s);
        assert s[..4] == BE(|r.val.s|, 4);
        FromBEOfBE4(|r.val.s|);
      }
    }
  }

  // ---- Containers ----

  /** The header of an encoding at the front of the bytes. */
  lemma HeaderPrefix(size: nat, count: nat, body: bytes, s: bytes)
    requires size < UINT32_LIMIT && count < UINT32_LIMIT
    ensures BE(size, 4) + BE(count, 4) + body <= s <==>
            |s| >= 8 && FromBE(s[..4]) == size && FromBE(s[4..8]) == count && body <= s[8..]
  {
    hide BE, FromBE;
    var head := BE(size, 4) + BE(count, 4);
    PrefixParts(head, body, s);
    if |s| >= 8 {
      FromBEOfBE4(size);
      FromBEOfBE4(count);
      BEOfFromBE(s[..4]);
      BEOfFromBE(s[4..8]);
      assert s[..8] == s[..4] + s[4..8];
      assert head[..4] == BE(size, 4) && head[4..8] == BE(count, 4);
      assert head <= s <==> s[..8] == head;
      assert s[..8] == head ==> s[..4] == head[..4] && s[4..8] == head[4..8];
    }
  }

  predicate AllFit(t: Type, es: seq<Value>, sig: string) {
    forall e <- es :: Fit(t, e, sig)
  }

  ghost predicate Agrees(t: Type, sig: string, s: bytes) {
    var r, f := Decode(t, sig, s), Frame(t, sig, s);
    && (f.Some? ==> Fit(t, r.val, sig) && Took(r, f.value, s))
    && (Fit(t, r.val, sig) ==> Measures(f, Encode(t, r.val), s))
  }

  ghost predicate ElemsAgree(t: Type, sig: string, s: bytes, n: nat) {
    var r, f := DecodeElems(t, sig, s, n), FrameElems(t, sig, s, n);
    && (f.Some? ==> AllFit(t, r.val, sig) && Took(r, f.value, s))
    && (AllFit(t, r.val, sig) ==> Measures(f, EncodeElems(t, r.val), s))
  }

  /** The framing of a value is what its reader takes, and a value whose encoding is there is framed. */
  lemma {:induction false} Exact(t: Type, sig: string, s: bytes)
    requires |s| < UINT32_LIMIT
    ensures Agrees(t, sig, s)
    decreases t, 0
  {
    match t
    case Scalar(k) => AtomExact(k, s);
    case Array(_) => ArrayExact(t, sig, s);
    case Map(_, _) => MapExact(t, sig, s);
  }

  lemma {:induction false} ElemsExact(t: Type, sig: string, s: bytes, n: nat)
    requires |s| < UINT32_LIMIT
    ensures ElemsAgree(t, sig, s, n)
    decreases t, 1, n
  {
    hide Decode, Frame, Encode, Fit;
    if n > 0 {
      Exact(t, sig, s);
      var first, f := Decode(t, sig, s), Frame(t, sig, s);
      if f.Some? {
        ElemsExact(t, sig, s[f.value..], n - 1);
        MoreElems(t, sig, s, n, first, f.value);
      } else {
        NoMoreElems(t, sig, s, n, first);
      }
    }
  }

  /** An element that is framed, and the others after it. */
  lemma MoreElems(t: Type, sig: string, s: bytes, n: nat, first: Read<Value>, at: nat)
    requires n > 0 && first == Decode(t, sig, s) && Frame(t, sig, s) == Some(at) && Agrees(t, sig, s)
    requires ElemsAgree(t, sig, s[at..], n - 1)
    ensures ElemsAgree(t, sig, s, n)
  {
    hide Decode, Frame, Encode, Fit, EncodeElems, Measures, AllFit;
    var tail := s[at..];
    var later, f := DecodeElems(t, sig, tail, n - 1), FrameElems(t, sig, tail, n - 1);
    assert DecodeElems(t, sig, s, n) == Read(later.ret, [first.val] + later.val, later.rest);
    assert FrameElems(t, sig, s, n) == Sum(Some(at), f);
    FitParts(t, first.val, later.val, sig);
    if f.Some? {
      TookLater(later, s, at, f.value);
    }
    if AllFit(t, [first.val] + later.val, sig) {
      FitEach(t, later.val, sig);
      FitTyped(t, first.val, sig);
      Both(Some(at), f, Encode(t, first.val), EncodeElems(t, later.val), s);
    }
  }

  /** An element that is not framed: its encoding is not there, and so neither is that of the list. */
  lemma NoMoreElems(t: Type, sig: string, s: bytes, n: nat, first: Read<Value>)
    requires n > 0 && first == Decode(t, sig, s) && Frame(t, sig, s) == None && Agrees(t, sig, s)
    ensures ElemsAgree(t, sig, s, n)
  {
    hide Decode, Frame, Encode, Fit, EncodeElems, Measures, AllFit;
    var r := DecodeElems(t, sig, s, n);
    var others := r.val[1..];
    assert r.val == [first.val] + others;
    FitParts(t, first.val, others, sig);
    if AllFit(t, r.val, sig) {
      FitEach(t, others, sig);
      FitTyped(t, first.val, sig);
      Both(None, None, Encode(t, first.val), EncodeElems(t, others), s);
    }
  }

  lemma FitTyped(t: Type, v: Value, sig: string)
    requires Fit(t, v, sig)
    ensures Typed(t, v)
  {
  }

  lemma FitEach(t: Type, es: seq<Value>, sig: string)
    requires AllFit(t, es, sig)
    ensures forall e <- es :: Typed(t, e)
  {
    hide Typed, BracketsFit;
  }

  lemma FitParts(t: Type, e: Value, es: seq<Value>, sig: string)
    ensures AllFit(t, [e] + es, sig) <==> Fit(t, e, sig) && AllFit(t, es, sig)
    ensures AllFit(t, [e] + es, sig) ==> EncodeElems(t, [e] + es) == Encode(t, e) + EncodeElems(t, es)
  {
    hide Encode, Typed, BracketsFit;
    assert ([e] + es)[1..] == es;
    if AllFit(t, [e] + es, sig) {
      assert e in [e] + es && forall x <- es :: x in [e] + es;
    }
  }

  /** A container without elements is read from any bytes the header does not make sense of. */
  lemma EmptyExact(s: bytes)
    ensures BE(0, 4) + BE(0, 4) <= s <==> |s| >= 8 && FromBE(s[..4]) == 0 && FromBE(s[4..8]) == 0
    ensures BE(0, 4) + BE(0, 4) <= s ==> BE(0, 4) + BE(0, 4) == s[..8]
  {
    hide BE, FromBE;
    HeaderPrefix(0, 0, [], s);
    assert BE(0, 4) + BE(0, 4) + [] == BE(0, 4) + BE(0, 4);
  }

  lemma {:induction false} ArrayExact(t: Type, sig: string, s: bytes)
    requires |s| < UINT32_LIMIT && t.Array?
    ensures Agrees(t, sig, s)
    decreases t.elem, 2
  {
    hide BE, FromBE, DecodeElems, FrameElems, EncodeElems, Typed, BracketsFit;
    if Bracketed(sig, '(', ')') && HeaderFits(s) && FromBE(s[..4]) != 0 && FromBE(s[4..8]) != 0 {
      ElemsExact(t.elem, Strip(sig), s[8..], FromBE(s[4..8]));
      ArrayBody(t, sig, s);
    } else {
      ArrayEmpty(t, sig, s);
    }
  }

  lemma NoElems(t: Type, sig: string)
    ensures forall s :: FrameElems(t, sig, s, 0) == Some(0)
  {
  }

  lemma ArrayEmpty(t: Type, sig: string, s: bytes)
    requires t.Array?
    requires !(Bracketed(sig, '(', ')') && HeaderFits(s) && FromBE(s[..4]) != 0 && FromBE(s[4..8]) != 0)
    ensures Agrees(t, sig, s)
  {
    hide BE, FromBE, DecodeElems, FrameElems, EncodeElems;
    EmptyExact(s);
    NothingEncoded(t.elem);
    var r, f := Decode(t, sig, s), Frame(t, sig, s);
    assert r.val == List([]) && Typed(t, r.val);
    assert BE(0, 4) + BE(0, 4) + [] == BE(0, 4) + BE(0, 4) == Encode(t, r.val);
    if Bracketed(sig, '(', ')') && HeaderFits(s) {
      NoElems(t.elem, Strip(sig));
      var body := FrameElems(t.elem, Strip(sig), s[8..], FromBE(s[4..8]));
      assert f == FrameBody(s, body);
      assert f.Some? <==> FromBE(s[..4]) == 0 && FromBE(s[4..8]) == 0;
    }
  }

  lemma ArrayBody(t: Type, sig: string, s: bytes)
    requires t.Array? && Bracketed(sig, '(', ')')
    requires |s| < UINT32_LIMIT && HeaderFits(s) && FromBE(s[..4]) != 0 && FromBE(s[4..8]) != 0
    requires ElemsAgree(t.elem, Strip(sig), s[8..], FromBE(s[4..8]))
    ensures Agrees(t, sig, s)
  {
    hide BE, FromBE, DecodeElems, FrameElems, EncodeElems;
    var count, body := FromBE(s[4..8]), s[8..];
    var r := DecodeElems(t.elem, Strip(sig), body, count);
    assert Decode(t, sig, s) == Read(0, List(r.val), r.rest);
    if Fit(t, List(r.val), sig) {
      var enc := EncodeElems(t.elem, r.val);
      assert Encode(t, List(r.val)) == BE(|enc|, 4) + BE(count, 4) + enc;
      BodyExact(s, enc, count, FrameElems(t.elem, Strip(sig), body, count));
    }
  }

  /** The body decides about the container, once its length is the one in the header. */
  lemma BodyExact(s: bytes, enc: bytes, count: nat, f: Option<nat>)
    requires |s| < UINT32_LIMIT && HeaderFits(s) && count == FromBE(s[4..8]) && Measures(f, enc, s[8..])
    ensures Measures(FrameBody(s, f), BE(|enc|, 4) + BE(count, 4) + enc, s)
  {
    hide BE, FromBE;
    var full := BE(|enc|, 4) + BE(count, 4) + enc;
    if enc <= s[8..] {
      HeaderPrefix(|enc|, count, enc, s);
      assert full <= s ==> full == s[..8 + |enc|];
    } else if full <= s {
      PrefixParts(BE(|enc|, 4) + BE(count, 4), enc, s);
    }
  }

  // ---- Maps ----

  /** `es` is `acc` and `n` more entries after those. */
  predicate Grown(es: seq<Entry>, acc: seq<Entry>, n: nat) {
    acc <= es && |es| == |acc| + n
  }

  function LastKey(es: seq<Entry>): Option<Atom> {
    if es == [] then None else Some(es[|es| - 1].key)
  }

  /** Entries come in and none goes; when an error ends the loop at least one is missing. */
  lemma {:induction false} EntriesGrow(k: Kind, t: Type, sig: string, s: bytes, n: nat, acc: seq<Entry>)
    requires Ascending(k, acc)
    ensures var r := DecodeEntries(k, t, sig, s, n, acc);
            && |acc| <= |r.val| <= |acc| + n && (r.ret < 0 ==> |r.val| < |acc| + n)
            && Ascending(k, r.val) && forall e <- acc :: e in r.val
    decreases n
  {
    hide Decode, ReadAtom, Ascending, Insert;
    if n > 0 {
      var key := ReadAtom(k, s);
      if key.ret == 0 {
        var val := Decode(t, sig, key.rest);
        if val.ret == 0 {
          InsertAscending(k, acc, key.val, val.val);
          InsertKeeps(k, acc, key.val, val.val);
          EntriesGrow(k, t, sig, val.rest, n - 1, Insert(k, acc, key.val, val.val));
        }
      }
    }
  }

  /** Every one of `n` entries is added: the first of them is. */
  lemma FirstAdded(k: Kind, t: Type, sig: string, s: bytes, n: nat, acc: seq<Entry>,
                   key: Read<Atom>, val: Read<Value>, es: seq<Entry>)
    requires n > 0 && key == ReadAtom(k, s) && val == Decode(t, sig, key.rest) && Ascending(k, acc)
    requires es == DecodeEntries(k, t, sig, s, n, acc).val && |es| == |acc| + n
    ensures key.ret == 0 && val.ret == 0 && Entry(key.val, val.val) in es
  {
    hide Decode, ReadAtom, Ascending, Insert;
    if key.ret == 0 && val.ret == 0 {
      var more := Insert(k, acc, key.val, val.val);
      InsertAscending(k, acc, key.val, val.val);
      InsertKeeps(k, acc, key.val, val.val);
      EntriesGrow(k, t, sig, val.rest, n - 1, more);
    }
  }

  /** A key whose encoding is at the front of the bytes is the key that is read. */
  lemma KeyThere(k: KeyKind, key: Atom, s: bytes)
    requires AtomTyped(k, key) && EncodeAtom(key, k) <= s && |s| < UINT32_LIMIT
    ensures ReadAtom(k, s).val == key
  {
    hide BE, FromBE, ReadNum, Pow256;
    Pow256Values();
    var enc := EncodeAtom(key, k);
    var rest := s[|enc|..];
    assert s == enc + rest;
    if IsNumeric(k) {
      ReadNumOfBE(key.n, Width(k), rest);
    } else {
      assert s == BE(|key.s|, 4) + (key.s + rest);
      ReadNumOfBE(|key.s|, 4, key.s + rest);
      assert (key.s + rest)[..|key.s|] == key.s;
    }
  }

  /** Two entries with one key are one entry. */
  lemma OneOfAKind(k: Kind, es: seq<Entry>, i: nat, e: Entry)
    requires Ascending(k, es) && i < |es| && e in es && e.key == es[i].key
    ensures e == es[i]
  {
    hide Before, Ascending;
    var j :| 0 <= j < |es| && es[j] == e;
    if j != i {
      KeyOrder(k, e.key, e.key, e.key);
      Earlier(k, es, Min(i, j), Max(i, j));
    }
  }

  lemma Earlier(k: Kind, es: seq<Entry>, i: nat, j: nat)
    requires Ascending(k, es) && i < j < |es|
    ensures Before(k, es[i].key, es[j].key)
  {
  }

  /** The encodings of the entries after those of `acc` are at the front of the bytes. */
  ghost predicate Listed(k: Kind, t: Type, sig: string, es: seq<Entry>, acc: seq<Entry>, n: nat, s: bytes) {
    && Grown(es, acc, n) && EntriesFit(k, t, es[|acc|..], sig) && EncodeEntries(k, t, es[|acc|..]) <= s
  }

  /**
   When the bytes list the entries in the order of their keys, the entry read next is the one listed
   next: both keys start at the same byte.
   */
  lemma FirstInOrder(k: KeyKind, t: Type, sig: string, s: bytes, n: nat, acc: seq<Entry>,
                     key: Read<Atom>, val: Read<Value>, es: seq<Entry>)
    requires n > 0 && key == ReadAtom(k, s) && val == Decode(t, sig, key.rest) && Ascending(k, acc)
    requires es == DecodeEntries(k, t, sig, s, n, acc).val && |s| < UINT32_LIMIT
    requires Listed(k, t, sig, es, acc, n, s)
    ensures var e := Entry(key.val, val.val);
            && key.ret == 0 && val.ret == 0 && es[|acc|] == e && Grown(es, acc + [e], n - 1)
            && EntryFit(k, t, e, sig) && EncodeEntry(k, t, e) <= s && After(k, LastKey(acc), e.key)
  {
    hide Decode, ReadAtom, Ascending, DecodeEntries, EncodeEntry, EncodeEntries, EntriesFit, Before;
    hide EntryTyped, EntryBracketsFit;
    var e, tail := es[|acc|], es[|acc| + 1..];
    assert es[|acc|..] == [e] + tail;
    EntryParts(k, t, e, tail, sig);
    EntriesFitEach(k, t, sig, tail);
    PrefixParts(EncodeEntry(k, t, e), EncodeEntries(k, t, tail), s);
    EntryKey(k, t, e, s);
    KeyThere(k, e.key, s);
    FirstAdded(k, t, sig, s, n, acc, key, val, es);
    EntriesGrow(k, t, sig, s, n, acc);
    OneOfAKind(k, es, |acc|, Entry(key.val, val.val));
    if acc != [] {
      Earlier(k, es, |acc| - 1, |acc|);
      assert acc[|acc| - 1] == es[|acc| - 1];
    }
  }

  lemma EntryKey(k: Kind, t: Type, e: Entry, s: bytes)
    requires EntryTyped(k, t, e) && EncodeEntry(k, t, e) <= s
    ensures AtomTyped(k, e.key) && EncodeAtom(e.key, k) <= s
  {
    hide EncodeAtom, Encode, Typed;
    PrefixParts(EncodeAtom(e.key, k), Encode(t, e.val), s);
  }

  ghost predicate EntryAgrees(k: Kind, t: Type, sig: string, s: bytes) {
    var key := ReadAtom(k, s);
    EntryMeasured(k, t, sig, s, key, Decode(t, sig, key.rest), FrameEntry(k, t, sig, s))
  }

  ghost predicate EntryMeasured(k: Kind, t: Type, sig: string, s: bytes, key: Read<Atom>, val: Read<Value>,
                                f: Option<nat>) {
    var e := Entry(key.val, val.val);
    && (f.Some? ==> key.ret == 0 && EntryFit(k, t, e, sig) && Took(val, f.value, s))
    && (key.ret == 0 && val.ret == 0 && EntryFit(k, t, e, sig) ==> Measures(f, EncodeEntry(k, t, e), s))
  }

  lemma {:induction false} EntryExact(k: Kind, t: Type, sig: string, s: bytes)
    requires |s| < UINT32_LIMIT
    ensures EntryAgrees(k, t, sig, s)
    decreases t, 1, 0
  {
    hide BE, FromBE, Decode, Frame, Encode, EncodeAtom, Fit, ReadAtom, FrameAtom, AtomTyped, Took;
    hide Measures, EntryMeasured;
    AtomExact(k, s);
    var key, a := ReadAtom(k, s), FrameAtom(k, s);
    var val := Decode(t, sig, key.rest);
    if a.Some? {
      TookRest(key, a.value, s);
      Exact(t, sig, s[a.value..]);
      EntryFramed(k, t, sig, s, key, val, a.value, Frame(t, sig, s[a.value..]));
    } else {
      EntryUnframed(k, t, sig, s, key, val);
    }
  }

  lemma EntryUnframed(k: Kind, t: Type, sig: string, s: bytes, key: Read<Atom>, val: Read<Value>)
    requires AtomTyped(k, key.val) ==> Measures(None, EncodeAtom(key.val, k), s)
    ensures EntryMeasured(k, t, sig, s, key, val, None)
  {
    hide Encode, EncodeAtom, Typed, Measures, AtomTyped, Took, BracketsFit;
    var e := Entry(key.val, val.val);
    if EntryTyped(k, t, e) {
      Both(None, None, EncodeAtom(key.val, k), Encode(t, val.val), s);
      assert EncodeEntry(k, t, e) == EncodeAtom(key.val, k) + Encode(t, val.val);
    }
  }

  lemma EntryFramed(k: Kind, t: Type, sig: string, s: bytes, key: Read<Atom>, val: Read<Value>,
                    a: nat, b: Option<nat>)
    requires a <= |s| && key.ret == 0 && AtomTyped(k, key.val) && Measures(Some(a), EncodeAtom(key.val, k), s)
    requires b.Some? ==> Fit(t, val.val, sig) && Took(val, b.value, s[a..])
    requires Fit(t, val.val, sig) ==> Measures(b, Encode(t, val.val), s[a..])
    ensures EntryMeasured(k, t, sig, s, key, val, Sum(Some(a), b))
  {
    hide Encode, EncodeAtom, Typed, Measures, AtomTyped, Took, BracketsFit;
    if b.Some? {
      TookLater(val, s, a, b.value);
    }
    if Fit(t, val.val, sig) {
      Both(Some(a), b, EncodeAtom(key.val, k), Encode(t, val.val), s);
      assert EncodeEntry(k, t, Entry(key.val, val.val)) == EncodeAtom(key.val, k) + Encode(t, val.val);
    }
  }

  ghost predicate EntriesAgree(k: Kind, t: Type, sig: string, s: bytes, n: nat, acc: seq<Entry>) {
    var r, f := DecodeEntries(k, t, sig, s, n, acc), FrameEntries(k, t, sig, s, n, LastKey(acc));
    && (f.Some? ==> Grown(r.val, acc, n) && EntriesFit(k, t, r.val[|acc|..], sig) && Took(r, f.value, s))
    && (Grown(r.val, acc, n) && EntriesFit(k, t, r.val[|acc|..], sig) ==>
          Measures(f, EncodeEntries(k, t, r.val[|acc|..]), s))
  }

  lemma {:induction false} EntriesExact(k: KeyKind, t: Type, sig: string, s: bytes, n: nat, acc: seq<Entry>)
    requires |s| < UINT32_LIMIT && Ascending(k, acc)
    ensures EntriesAgree(k, t, sig, s, n, acc)
    decreases t, 1, n
  {
    hide Decode, Encode, EncodeAtom, Typed, ReadAtom, FrameEntry, Ascending, Before, After, EntryFit;
    if n > 0 {
      EntryExact(k, t, sig, s);
      var key, f := ReadAtom(k, s), FrameEntry(k, t, sig, s);
      var val := Decode(t, sig, key.rest);
      if f.Some? && After(k, LastKey(acc), key.val) {
        var e := Entry(key.val, val.val);
        NextEntry(k, t, sig, s, n, acc, key, val);
        EntriesExact(k, t, sig, s[f.value..], n - 1, acc + [e]);
        MoreEntries(k, t, sig, s, n, acc, key, val, f.value);
      } else {
        NoMoreEntries(k, t, sig, s, n, acc, key, val);
      }
    }
  }

  /** An entry whose key comes after the others is added at the end. */
  lemma NextEntry(k: Kind, t: Type, sig: string, s: bytes, n: nat, acc: seq<Entry>, key: Read<Atom>, val: Read<Value>)
    requires n > 0 && key == ReadAtom(k, s) && val == Decode(t, sig, key.rest) && Ascending(k, acc)
    requires key.ret == 0 && val.ret == 0 && After(k, LastKey(acc), key.val)
    ensures var more := acc + [Entry(key.val, val.val)];
            && Ascending(k, more) && LastKey(more) == Some(key.val)
            && DecodeEntries(k, t, sig, s, n, acc) == DecodeEntries(k, t, sig, val.rest, n - 1, more)
  {
    hide Decode, ReadAtom, Before, Ascending, After, Insert;
    AfterAll(k, acc, key.val);
    InsertLast(k, acc, key.val, val.val);
    InsertAscending(k, acc, key.val, val.val);
  }

  lemma AfterAll(k: Kind, es: seq<Entry>, key: Atom)
    requires Ascending(k, es) && After(k, LastKey(es), key)
    ensures forall e <- es :: Before(k, e.key, key)
  {
    hide Before, Ascending;
    forall e <- es ensures Before(k, e.key, key) {
      var last := |es| - 1;
      var i :| 0 <= i < |es| && es[i] == e;
      if i < last {
        Earlier(k, es, i, last);
        KeyOrder(k, e.key, es[last].key, key);
      }
    }
  }

  /** The next entry is not framed, or its key is not after the others: the list is not there. */
  lemma NoMoreEntries(k: KeyKind, t: Type, sig: string, s: bytes, n: nat, acc: seq<Entry>,
                      key: Read<Atom>, val: Read<Value>)
    requires n > 0 && |s| < UINT32_LIMIT && Ascending(k, acc) && EntryAgrees(k, t, sig, s)
    requires key == ReadAtom(k, s) && val == Decode(t, sig, key.rest)
    requires FrameEntry(k, t, sig, s).None? || !After(k, LastKey(acc), key.val)
    ensures EntriesAgree(k, t, sig, s, n, acc)
  {
    hide Decode, EncodeEntry, EncodeEntries, EntryTyped, ReadAtom, FrameEntry, DecodeEntries, EntriesFit;
    hide Ascending, After, EntryBracketsFit;
    var es := DecodeEntries(k, t, sig, s, n, acc).val;
    assert FrameEntries(k, t, sig, s, n, LastKey(acc)) == None;
    if Grown(es, acc, n) && EntriesFit(k, t, es[|acc|..], sig) {
      EntriesFitEach(k, t, sig, es[|acc|..]);
      if EncodeEntries(k, t, es[|acc|..]) <= s {
        FirstInOrder(k, t, sig, s, n, acc, key, val, es);
      }
    }
  }

  predicate EntriesFit(k: Kind, t: Type, es: seq<Entry>, sig: string) {
    forall e <- es :: EntryFit(k, t, e, sig)
  }

  lemma EntryParts(k: Kind, t: Type, e: Entry, es: seq<Entry>, sig: string)
    ensures EntriesFit(k, t, [e] + es, sig) <==> EntryFit(k, t, e, sig) && EntriesFit(k, t, es, sig)
    ensures EntriesFit(k, t, [e] + es, sig) ==>
              EncodeEntries(k, t, [e] + es) == EncodeEntry(k, t, e) + EncodeEntries(k, t, es)
  {
    hide EncodeEntry, EntryTyped, EntryBracketsFit;
    assert ([e] + es)[1..] == es;
    if EntriesFit(k, t, [e] + es, sig) {
      assert e in [e] + es && forall x <- es :: x in [e] + es;
    }
  }

  lemma EntriesFitEach(k: Kind, t: Type, sig: string, es: seq<Entry>)
    requires EntriesFit(k, t, es, sig)
    ensures forall e <- es :: EntryTyped(k, t, e)
  {
    hide EntryTyped, EntryBracketsFit;
  }

  /** An entry that is framed and comes after the others, and the entries after it. */
  lemma MoreEntries(k: KeyKind, t: Type, sig: string, s: bytes, n: nat, acc: seq<Entry>,
                    key: Read<Atom>, val: Read<Value>, b: nat)
    requires n > 0 && |s| < UINT32_LIMIT && Ascending(k, acc) && EntryAgrees(k, t, sig, s)
    requires key == ReadAtom(k, s) && val == Decode(t, sig, key.rest)
    requires FrameEntry(k, t, sig, s) == Some(b) && After(k, LastKey(acc), key.val)
    requires var more := acc + [Entry(key.val, val.val)];
             && LastKey(more) == Some(key.val)
             && DecodeEntries(k, t, sig, s, n, acc) == DecodeEntries(k, t, sig, s[b..], n - 1, more)
             && EntriesAgree(k, t, sig, s[b..], n - 1, more)
    ensures EntriesAgree(k, t, sig, s, n, acc)
  {
    hide Decode, EncodeEntry, EncodeEntries, EntryTyped, ReadAtom, FrameEntry, DecodeEntries, EntriesFit;
    hide Ascending, After, EntryBracketsFit, Measures, Took;
    var e := Entry(key.val, val.val);
    var r, f := DecodeEntries(k, t, sig, s, n, acc), FrameEntries(k, t, sig, s[b..], n - 1, Some(key.val));
    assert FrameEntries(k, t, sig, s, n, LastKey(acc)) == Sum(Some(b), f);
    if Grown(r.val, acc + [e], n - 1) {
      TookTyped(k, t, sig, s, key, val, b);
      OneMore(k, t, sig, s, n, acc, e, b, r, f);
    } else if Grown(r.val, acc, n) && EntriesFit(k, t, r.val[|acc|..], sig) {
      EntriesFitEach(k, t, sig, r.val[|acc|..]);
      if EncodeEntries(k, t, r.val[|acc|..]) <= s {
        FirstInOrder(k, t, sig, s, n, acc, key, val, r.val);
      }
      NotMeasured(EncodeEntries(k, t, r.val[|acc|..]), s);
    }
  }

  lemma OneMore(k: Kind, t: Type, sig: string, s: bytes, n: nat, acc: seq<Entry>, e: Entry, b: nat,
                r: Read<seq<Entry>>, f: Option<nat>)
    requires n > 0 && b <= |s| && EntryFit(k, t, e, sig) && Measures(Some(b), EncodeEntry(k, t, e), s)
    requires Grown(r.val, acc + [e], n - 1)
    requires var later := r.val[|acc + [e]|..];
             && (f.Some? ==> EntriesFit(k, t, later, sig) && Took(r, f.value, s[b..]))
             && (EntriesFit(k, t, later, sig) ==> Measures(f, EncodeEntries(k, t, later), s[b..]))
    ensures Grown(r.val, acc, n)
    ensures f.Some? ==> EntriesFit(k, t, r.val[|acc|..], sig) && Took(r, b + f.value, s)
    ensures EntriesFit(k, t, r.val[|acc|..], sig) ==>
              Measures(Sum(Some(b), f), EncodeEntries(k, t, r.val[|acc|..]), s)
  {
    hide EncodeEntry, EncodeEntries, EntryTyped, EntryBracketsFit, EntriesFit, Measures, Took;
    var later := r.val[|acc + [e]|..];
    AfterMore(r.val, acc, e);
    EntryParts(k, t, e, later, sig);
    if f.Some? {
      TookLater(r, s, b, f.value);
    }
    if EntriesFit(k, t, later, sig) {
      EntriesFitEach(k, t, sig, later);
      Both(Some(b), f, EncodeEntry(k, t, e), EncodeEntries(k, t, later), s);
    }
  }

  lemma TookTyped(k: Kind, t: Type, sig: string, s: bytes, key: Read<Atom>, val: Read<Value>, b: nat)
    requires EntryAgrees(k, t, sig, s) && FrameEntry(k, t, sig, s) == Some(b)
    requires key == ReadAtom(k, s) && val == Decode(t, sig, key.rest)
    ensures var e := Entry(key.val, val.val);
            b <= |s| && EntryFit(k, t, e, sig) && Measures(Some(b), EncodeEntry(k, t, e), s)
  {
    hide Decode, EncodeEntry, EntryTyped, EntryBracketsFit, ReadAtom, FrameEntry, Measures;
  }

  lemma NotMeasured(enc: bytes, s: bytes)
    requires !(enc <= s)
    ensures Measures(None, enc, s)
  {
  }

  lemma AfterMore(es: seq<Entry>, acc: seq<Entry>, e: Entry)
    requires acc + [e] <= es
    ensures acc <= es && es[|acc|..] == [e] + es[|acc + [e]|..]
  {
    assert (acc + [e])[|acc|] == e;
  }

  lemma {:induction false} MapExact(t: Type, sig: string, s: bytes)
    requires |s| < UINT32_LIMIT && t.Map?
    ensures Agrees(t, sig, s)
    decreases t.elem, 2
  {
    hide BE, FromBE, DecodeEntries, FrameEntries, EncodeEntries, Fit, Decode, Frame, Encode;
    if Bracketed(sig, '[', ']') && |sig| > 2 && HeaderFits(s) && FromBE(s[4..8]) != 0 {
      EntriesExact(t.key, t.elem, Strip(sig)[1..], s[8..], FromBE(s[4..8]), []);
      MapBody(t, sig, s);
    } else {
      MapEmpty(t, sig, s);
    }
  }

  lemma NoEntries(k: Kind, t: Type, sig: string)
    ensures forall s :: FrameEntries(k, t, sig, s, 0, None) == Some(0)
  {
  }

  lemma MapEmpty(t: Type, sig: string, s: bytes)
    requires t.Map? && !(Bracketed(sig, '[', ']') && |sig| > 2 && HeaderFits(s) && FromBE(s[4..8]) != 0)
    ensures Agrees(t, sig, s)
  {
    hide BE, FromBE, DecodeEntries, FrameEntries, EncodeEntries;
    EmptyExact(s);
    NoEntriesEncoded(t.key, t.elem);
    var r, f := Decode(t, sig, s), Frame(t, sig, s);
    assert r.val == Dict([]) && Typed(t, r.val);
    assert BE(0, 4) + BE(0, 4) + [] == BE(0, 4) + BE(0, 4) == Encode(t, r.val);
    if Bracketed(sig, '[', ']') && |sig| > 2 && HeaderFits(s) {
      NoEntries(t.key, t.elem, Strip(sig)[1..]);
      var body := FrameEntries(t.key, t.elem, Strip(sig)[1..], s[8..], FromBE(s[4..8]), None);
      assert f == FrameBody(s, body);
      assert f.Some? <==> FromBE(s[..4]) == 0 && FromBE(s[4..8]) == 0;
    }
  }

  lemma MapBody(t: Type, sig: string, s: bytes)
    requires t.Map? && Bracketed(sig, '[', ']') && |sig| > 2
    requires |s| < UINT32_LIMIT && HeaderFits(s) && FromBE(s[4..8]) != 0
    requires EntriesAgree(t.key, t.elem, Strip(sig)[1..], s[8..], FromBE(s[4..8]), [])
    ensures Agrees(t, sig, s)
  {
    hide BE, FromBE, DecodeEntries, FrameEntries, EncodeEntries, Measures, Ascending, FrameBody;
    var count, body, inner := FromBE(s[4..8]), s[8..], Strip(sig)[1..];
    var r := DecodeEntries(t.key, t.elem, inner, body, count, []);
    var f := FrameEntries(t.key, t.elem, inner, body, count, None);
    NoneAscending(t.key);
    EntriesGrow(t.key, t.elem, inner, body, count, []);
    assert r.val[0..] == r.val;
    var d := Decode(t, sig, s);
    assert d.val == Dict(r.val) && d.rest == r.rest && Frame(t, sig, s) == FrameBody(s, f);
    if Frame(t, sig, s).Some? {
      TookBody(s, r, f);
    }
    if Fit(t, d.val, sig) {
      var enc := EncodeEntries(t.key, t.elem, r.val);
      assert Encode(t, d.val) == BE(|enc|, 4) + BE(|r.val|, 4) + enc;
      if |r.val| == count {
        BodyExact(s, enc, count, f);
      } else {
        WrongCount(s, enc, |r.val|, f);
      }
    }
  }

  lemma NoneAscending(k: Kind)
    ensures Ascending(k, [])
  {
  }

  /** A body that takes as many bytes as the header says. */
  lemma TookBody<T>(s: bytes, r: Read<T>, f: Option<nat>)
    requires HeaderFits(s) && f.Some? && Took(r, f.value, s[8..]) && FrameBody(s, f).Some?
    ensures r.ret == 0 && |s| - 8 - |r.rest| == FromBE(s[..4]) && r.rest == s[FrameBody(s, f).value..]
  {
    hide FromBE;
  }

  /** Entries that were dropped show in the header. */
  lemma WrongCount(s: bytes, enc: bytes, count: nat, f: Option<nat>)
    requires |s| < UINT32_LIMIT && HeaderFits(s) && count < FromBE(s[4..8]) && f == None
    ensures Measures(FrameBody(s, f), BE(|enc|, 4) + BE(count, 4) + enc, s)
  {
    hide BE, FromBE;
    var full := BE(|enc|, 4) + BE(count, 4) + enc;
    if full <= s {
      assert |full| <= |s|;
      HeaderPrefix(|enc|, count, enc, s);
    }
  }

  // ---- Success on the reader's side ----

  /**
   Reading reports success, takes exactly the encoding of the value it returns, and finds the brackets of
   the type wherever it opens a container, when the bytes are framed and only then. Nothing less will do:
   if the encoding of such a value is there at all, the bytes are framed.
   */
  lemma DecodeExact(t: Type, sig: string, s: bytes)
    requires |s| < UINT32_LIMIT
    ensures var r, f := Decode(t, sig, s), Frame(t, sig, s);
            && (f.Some? <==> Fit(t, r.val, sig) && r.ret == 0 && s == Encode(t, r.val) + r.rest)
            && (f.Some? <==> Fit(t, r.val, sig) && Encode(t, r.val) <= s)
            && (f.Some? ==> f.value == |Encode(t, r.val)|)
  {
    hide Decode, Frame, Encode, Typed, BracketsFit;
    Exact(t, sig, s);
  }

  /** What the writer produces within the limits is framed, and the frame ends where the encoding does. */
  lemma EncodingIsFramed(t: Type, v: Value, rest: bytes)
    requires Typed(t, v) && Fits(t, v) && |Encode(t, v)| + |rest| < UINT32_LIMIT
    ensures Frame(t, Sig(t), Encode(t, v) + rest) == Some(|Encode(t, v)|)
  {
    hide Decode, Frame, Encode, Typed, Sig, BracketsFit, Clean;
    RoundTrip(t, v, rest);
    OwnSigIsClean(t, v);
    CleanFits(t, v, Sig(t));
    DecodeExact(t, Sig(t), Encode(t, v) + rest);
  }

  /** Two elements announced and one there: the reader fills in the second and reports success. */
  lemma SwallowedOnReading()
    ensures var t, s := Array(Scalar(UInt8)), BE(2, 4) + BE(2, 4) + [7];
            Decode(t, Sig(t), s) == Read(0, List([Leaf(Num(7)), Leaf(Num(0))]), []) && Frame(t, Sig(t), s) == None
  {
    hide BE, FromBE;
    var t, s := Array(Scalar(UInt8)), BE(2, 4) + BE(2, 4) + [7];
    StripSig(t);
    ReadHeader(2, 2, [7], []);
    assert s + [] == s && s[8..] == [7] && [7] + [] == [7];
    assert BE(2, 4) + BE(2, 4) + [7] + [] == s;
    var elem := Scalar(UInt8);
    OneByte(7, []);
    assert [7] + [] == [7];
    assert Decode(elem, Sig(elem), [7]) == Read(0, Leaf(Num(7)), []);
    assert Decode(elem, Sig(elem), []) == Read(E_INVAL, Leaf(Num(0)), []);
    assert [Leaf(Num(0))] + Defaults(elem, 0) == [Leaf(Num(0))];
    assert [Leaf(Num(7))] + [Leaf(Num(0))] == [Leaf(Num(7)), Leaf(Num(0))];
    assert DecodeElems(elem, Sig(elem), [], 1) == Read(E_INVAL, [Leaf(Num(0))], []);
    assert DecodeElems(elem, Sig(elem), [7], 2) == Read(E_INVAL, [Leaf(Num(7)), Leaf(Num(0))], []);
    assert Frame(elem, Sig(elem), []) == None;
  }

  lemma OneByte(n: byte, rest: bytes)
    ensures ReadNum(1, [n] + rest) == Read(0, n as int, rest)
  {
    var s: bytes := [n] + rest;
    assert s[..1] == [n] && [n][..0] == [] && s[1..] == rest;
  }

  /** Two entries in the wrong order: the map that is read has them in the right one, and other bytes. */
  lemma KeysOutOfOrder()
    ensures var t, s := Map(UInt8, Scalar(UInt8)), BE(4, 4) + BE(2, 4) + [2, 7, 1, 9];
            var v := Dict([Entry(Num(1), Leaf(Num(9))), Entry(Num(2), Leaf(Num(7)))]);
            && Decode(t, Sig(t), s) == Read(0, v, []) && Typed(t, v) && Encode(t, v) != s
            && Frame(t, Sig(t), s) == None
  {
    hide BE, FromBE, Frame, Decode, DecodeEntries, Typed, Encode;
    var t, s := Map(UInt8, Scalar(UInt8)), BE(4, 4) + BE(2, 4) + [2, 7, 1, 9];
    var es := [Entry(Num(1), Leaf(Num(9))), Entry(Num(2), Leaf(Num(7)))];
    StripSig(t);
    ReadHeader(4, 2, [2, 7, 1, 9], []);
    assert BE(4, 4) + BE(2, 4) + [2, 7, 1, 9] + [] == s && [2, 7, 1, 9] + [] == [2, 7, 1, 9];
    TwoEntries();
    DecodeMap(t, Sig(t), s, 4, es, []);
    OtherBytes(t, Dict(es), s);
    DecodeExact(t, Sig(t), s);
  }

  lemma TwoEntries()
    ensures var first, second := Entry(Num(1), Leaf(Num(9))), Entry(Num(2), Leaf(Num(7)));
            DecodeEntries(UInt8, Scalar(UInt8), "B", [2, 7, 1, 9], 2, []) == Read(0, [first, second], [])
  {
    hide Decode, ReadAtom;
    var first, second := Entry(Num(1), Leaf(Num(9))), Entry(Num(2), Leaf(Num(7)));
    OneEntry([], second, [1, 9], 2);
    OneEntry([second], first, [], 1);
    assert [2, 7] + [1, 9] == [2, 7, 1, 9] && [1, 9] + [] == [1, 9];
    assert Insert(UInt8, [second], Num(1), first.val) == [first, second];
    assert Insert(UInt8, [], Num(2), second.val) == [second];
  }

  lemma OneEntry(acc: seq<Entry>, e: Entry, rest: bytes, n: nat)
    requires n > 0 && e.key.Num? && e.key.n < 256 && e.val.Leaf? && e.val.atom.Num? && e.val.atom.n < 256
    ensures var elem, s := Scalar(UInt8), [e.key.n as byte, e.val.atom.n as byte] + rest;
            var more := Insert(UInt8, acc, e.key, e.val);
            DecodeEntries(UInt8, elem, "B", s, n, acc) == DecodeEntries(UInt8, elem, "B", rest, n - 1, more)
  {
    hide ReadNum, Insert;
    var key, val := e.key.n as byte, e.val.atom.n as byte;
    var s := [key, val] + rest;
    assert s == [key] + ([val] + rest);
    OneByte(key, [val] + rest);
    OneByte(val, rest);
    DecodeOneEntry(UInt8, Scalar(UInt8), "B", s, n, acc, e, [val] + rest, rest);
  }

  lemma OtherBytes(t: Type, v: Value, s: bytes)
    requires t == Map(UInt8, Scalar(UInt8)) && s == BE(4, 4) + BE(2, 4) + [2, 7, 1, 9]
    requires v == Dict([Entry(Num(1), Leaf(Num(9))), Entry(Num(2), Leaf(Num(7)))])
    ensures Typed(t, v) && Encode(t, v) != s
  {
    hide BE;
    Pow256Values();
    assert Typed(t, v);
    ByteOfOne();
    assert EncodeEntries(UInt8, Scalar(UInt8), v.entries)[0] == BE(1, 1)[0];
    assert s[8] == 2;
  }

  lemma ByteOfOne()
    ensures BE(1, 1) == [1]
  {
  }

  /**
   Under the signature of another type the inner array is refused and the refusal is dropped: the value
   returned is the right one, its encoding is there, and half of it is left unread.
   */
  lemma BracketsMatter()
    ensures var t, s := Array(Array(Scalar(UInt8))), BE(8, 4) + BE(1, 4) + (BE(0, 4) + BE(0, 4));
            var v := List([List([])]);
            && Typed(t, v) && !Fit(t, v, "(B)") && Encode(t, v) == s && Frame(t, "(B)", s) == None
            && Decode(t, "(B)", s) == Read(0, v, BE(0, 4) + BE(0, 4))
  {
    hide BE, FromBE;
    var elem := Array(Scalar(UInt8));
    var t, inner := Array(elem), BE(0, 4) + BE(0, 4);
    var s, v := BE(8, 4) + BE(1, 4) + inner, List([List([])]);
    assert Strip("(B)") == "B";
    ReadHeader(8, 1, inner, []);
    assert BE(8, 4) + BE(1, 4) + inner + [] == s && inner + [] == inner;
    assert Decode(elem, "B", inner) == Read(E_INVAL, List([]), inner);
    assert [List([])] + Defaults(elem, 0) == [List([])];
    assert DecodeElems(elem, "B", inner, 1) == Read(E_INVAL, [List([])], inner);
    assert Typed(elem, List([])) && Typed(t, v);
    assert List([]) in v.elems && !BracketsFit(elem, List([]), "B");
    NothingEncoded(Scalar(UInt8));
    NothingEncoded(elem);
    assert Encode(elem, List([])) == inner by {
      assert inner + [] == inner;
    }
    assert [List([])][1..] == [];
    assert EncodeElems(elem, [List([])]) == inner + [] == inner;
    assert Frame(elem, "B", inner) == None;
  }
}
