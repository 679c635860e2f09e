/**
 The order of connection parameters on a proxy, which keys the map from addresses to ports.
 */
module ConnOrder {
  import opened Bytes

  /** A std::string: the codes of its characters. */
  type Text = seq<nat>

  /** Where an object is in memory; 0 is the null pointer. */
  type Addr = nat

  /** Properties of an authentication object; a property that is missing is None. */
  datatype Auth = Auth(mech: Option<Text>, user: Option<Text>, realm: Option<Text>, signMsg: Option<bool>)

  /** The objects in memory. */
  type Memory = Addr -> Auth

  /** The properties that are looked at. An authentication property that is no configuration object is null. */
  datatype Params = Params(
    isServer: Option<bool>, destIp: Option<Text>, destPort: Option<nat>, routerPath: Option<Text>,
    webSocket: Option<bool>, url: Option<Text>, ssl: Option<bool>,
    authInfo: Option<Addr>, hasAuth: Option<bool>)

  /** A getter leaves its result as it was when there is no such property. */
  function Get<T>(prop: Option<T>, unchanged_: T): T {
    if prop.Some? then prop.value else unchanged_
  }

  const KRB5: Text := [107, 114, 98, 53]

  function ToLower(s: Text): Text {
    seq(|s|, i requires 0 <= i < |s| => if 65 <= s[i] <= 90 then s[i] + 32 else s[i])
  }

  /** operator< of std::string. */
  predicate TextLess(a: Text, b: Text) {
    b != [] && (a == [] || a[0] < b[0] || (a[0] == b[0] && TextLess(a[1..], b[1..])))
  }

  function Num(b: bool): nat {
    if b then 1 else 0
  }

  predicate HasAuth(p: Params) {
    p.authInfo.Some? || Get(p.hasAuth, false)
  }

  /** Two equal pointers are not looked through; a null one comes first. */
  predicate LessAuth(mem: Memory, p: Params, q: Params) {
    var a, b := Get(p.authInfo, 0), Get(q.authInfo, 0);
    if a == b then false
    else if a == 0 then true
    else if b == 0 then false
    else LessAuthInfo(mem(a), mem(b))
  }

  /** The strings are read into the same variables one after the other. */
  predicate LessAuthInfo(a: Auth, b: Auth) {
    var mech1, mech2 := Get(a.mech, []), Get(b.mech, []);
    if TextLess(mech1, mech2) then true
    else if TextLess(mech2, mech1) then false
    else if mech1 == KRB5 then
      var user1, user2 := Get(a.user, mech1), Get(b.user, mech2);
      if TextLess(user1, user2) then true
      else if TextLess(user2, user1) then false
      else
        var realm1, realm2 := ToLower(Get(a.realm, user1)), ToLower(Get(b.realm, user2));
        if TextLess(realm1, realm2) then true
        else if TextLess(realm2, realm1) then false
        else !Get(a.signMsg, false) && Get(b.signMsg, false)
    else false
  }

  predicate Less(mem: Memory, p: Params, q: Params) {
    var server1, server2 := Get(p.isServer, false), Get(q.isServer, false);
    if Num(server1) < Num(server2) then true
    else if Num(server2) < Num(server1) then false
    else
      var ip1, ip2 := Get(p.destIp, []), Get(q.destIp, []);
      if TextLess(ip1, ip2) then true
      else if TextLess(ip2, ip1) then false
      else
        var port1, port2 := Get(p.destPort, 0), Get(q.destPort, 0);
        if port1 < port2 then true
        else if port2 < port1 then false
        // the address is compared once more in the source
        else if TextLess(ip1, ip2) then true
        else if TextLess(ip2, ip1) then false
        else LessPath(mem, p, q)
  }

  predicate LessPath(mem: Memory, p: Params, q: Params) {
    var path1, path2 := Get(p.routerPath, []), Get(q.routerPath, []);
    if TextLess(path1, path2) then true
    else if TextLess(path2, path1) then false
    else
      var ws1, ws2 := Get(p.webSocket, false), Get(q.webSocket, false);
      if Num(ws1) < Num(ws2) then true
      else if Num(ws1) > Num(ws2) then false
      else
        var url1, url2 := Get(p.url, []), Get(q.url, []);
        if Num(ws1) > 0 && TextLess(url1, url2) then true
        else if Num(ws1) > 0 && TextLess(url2, url1) then false
        else
          var ssl1, ssl2 := Get(p.ssl, false), Get(q.ssl, false);
          if Num(ssl1) < Num(ssl2) then true
          else if Num(ssl1) > Num(ssl2) then false
          else if !HasAuth(p) && HasAuth(q) then true
          else if (HasAuth(p) && !HasAuth(q)) || (!HasAuth(p) && !HasAuth(q)) then false
          else LessAuth(mem, p, q)
  }

  // ---- The key of a parameter set ----

  /** What two parameter sets have to share to be one key of the map; fields that are not compared are blank. */
  function Key(mem: Memory, p: Params): (k: seq<Text>)
    ensures |k| == 12
  {
    HeadKey(p) + PathKey(p) + AuthKey(mem, p)
  }

  function HeadKey(p: Params): (k: seq<Text>)
    ensures |k| == 3
  {
    [[Num(Get(p.isServer, false))], Get(p.destIp, []), [Get(p.destPort, 0)]]
  }

  function PathKey(p: Params): (k: seq<Text>)
    ensures |k| == 4
  {
    var ws := Get(p.webSocket, false);
    [Get(p.routerPath, []), [Num(ws)], if ws then Get(p.url, []) else [], [Num(Get(p.ssl, false))]]
  }

  function AuthKey(mem: Memory, p: Params): (k: seq<Text>)
    ensures |k| == 5
  {
    var a := Get(p.authInfo, 0);
    if !HasAuth(p) then [[0], [], [], [], []]
    else if a == 0 then [[1], [], [], [], []]
    else [[1]] + InfoKey(mem(a))
  }

  function InfoKey(a: Auth): (k: seq<Text>)
    ensures |k| == 4
  {
    var mech := Get(a.mech, []);
    // a mark in front of the mechanism sets it apart from no authentication object
    if mech != KRB5 then [[1] + mech, [], [], []]
    else
      var user := Get(a.user, mech);
      [[1] + mech, user, ToLower(Get(a.realm, user)), [Num(Get(a.signMsg, false))]]
  }

  /** Field by field, the first difference decides. */
  predicate KeyLess(a: seq<Text>, b: seq<Text>)
    requires |a| == |b|
  {
    a != [] && (TextLess(a[0], b[0]) || (a[0] == b[0] && KeyLess(a[1..], b[1..])))
  }

  lemma {:induction false} TextTotal(a: Text, b: Text)
    ensures !TextLess(a, a)
    ensures TextLess(a, b) ==> !TextLess(b, a)
    ensures TextLess(a, b) || TextLess(b, a) || a == b
  {
    if a != [] {
      TextTotal(a[1..], a[1..]);
      if b != [] {
        TextTotal(a[1..], b[1..]);
        assert a == [a[0]] + a[1..] && b == [b[0]] + b[1..];
      }
    }
  }

  lemma {:induction false} TextTransitive(a: Text, b: Text, c: Text)
    requires TextLess(a, b) && TextLess(b, c)
    ensures TextLess(a, c)
  {
    if a != [] && a[0] == b[0] == c[0] {
      TextTransitive(a[1..], b[1..], c[1..]);
    }
  }

  lemma {:induction false} KeyTotal(a: seq<Text>, b: seq<Text>)
    requires |a| == |b|
    ensures !KeyLess(a, a)
    ensures KeyLess(a, b) ==> !KeyLess(b, a)
    ensures KeyLess(a, b) || KeyLess(b, a) || a == b
  {
    if a != [] {
      TextTotal(a[0], b[0]);
      TextTotal(a[0], a[0]);
      KeyTotal(a[1..], a[1..]);
      KeyTotal(a[1..], b[1..]);
      assert a == [a[0]] + a[1..] && b == [b[0]] + b[1..];
    }
  }

  lemma {:induction false} KeyTransitive(a: seq<Text>, b: seq<Text>, c: seq<Text>)
    requires |a| == |b| == |c| && KeyLess(a, b) && KeyLess(b, c)
    ensures KeyLess(a, c)
  {
    if TextLess(a[0], b[0]) && TextLess(b[0], c[0]) {
      TextTransitive(a[0], b[0], c[0]);
    } else if a[0] == b[0] == c[0] {
      KeyTransitive(a[1..], b[1..], c[1..]);
    }
  }

  lemma {:induction false} KeyLessConcat(a: seq<Text>, b: seq<Text>, c: seq<Text>, d: seq<Text>)
    requires |a| == |b| && |c| == |d|
    ensures KeyLess(a + c, b + d) <==> KeyLess(a, b) || (a == b && KeyLess(c, d))
  {
    if a == [] {
      assert a + c == c && b + d == d;
    } else {
      KeyLessConcat(a[1..], b[1..], c, d);
      assert (a + c)[1..] == a[1..] + c && (b + d)[1..] == b[1..] + d;
      assert a == [a[0]] + a[1..] && b == [b[0]] + b[1..];
    }
  }

  lemma NumLess(m: nat, n: nat)
    ensures TextLess([m], [n]) <==> m < n
  {
    assert [m][1..] == [] == [n][1..];
  }

  lemma KeyLess1(x: Text, y: Text)
    ensures KeyLess([x], [y]) <==> TextLess(x, y)
  {
    assert [x][1..] == [];
  }

  /** Two or more fields, one after the other. */
  lemma KeyLessCons(x: Text, y: Text, a: seq<Text>, b: seq<Text>)
    requires |a| == |b|
    ensures KeyLess([x] + a, [y] + b) <==> TextLess(x, y) || (x == y && KeyLess(a, b))
  {
    assert ([x] + a)[1..] == a && ([y] + b)[1..] == b;
  }

  lemma InfoKeyOrder(a: Auth, b: Auth)
    ensures LessAuthInfo(a, b) <==> KeyLess(InfoKey(a), InfoKey(b))
  {
    var mech1, mech2 := Get(a.mech, []), Get(b.mech, []);
    var k1, k2 := InfoKey(a), InfoKey(b);
    assert k1 == [[1] + mech1] + k1[1..] && k2 == [[1] + mech2] + k2[1..];
    KeyLessCons([1] + mech1, [1] + mech2, k1[1..], k2[1..]);
    assert ([1] + mech1)[1..] == mech1 && ([1] + mech2)[1..] == mech2;
    TextTotal(mech1, mech2);
    if mech1 == mech2 {
      if mech1 == KRB5 {
        Krb5Order(a, b);
        assert k1[1..] == Krb5Key(a) && k2[1..] == Krb5Key(b);
      } else {
        assert k1[1..] == k2[1..];
        KeyTotal(k1[1..], k2[1..]);
      }
    }
  }

  function Krb5Key(a: Auth): (k: seq<Text>)
    ensures |k| == 3
  {
    var user := Get(a.user, KRB5);
    [user, ToLower(Get(a.realm, user)), [Num(Get(a.signMsg, false))]]
  }

  lemma Krb5Order(a: Auth, b: Auth)
    requires Get(a.mech, []) == Get(b.mech, []) == KRB5
    ensures LessAuthInfo(a, b) <==> KeyLess(Krb5Key(a), Krb5Key(b))
  {
    var k1, k2 := Krb5Key(a), Krb5Key(b);
    TextTotal(KRB5, KRB5);
    TextTotal(k1[0], k2[0]);
    TextTotal(k1[1], k2[1]);
    assert k1 == [k1[0]] + ([k1[1]] + [k1[2]]) && k2 == [k2[0]] + ([k2[1]] + [k2[2]]);
    KeyLessCons(k1[0], k2[0], [k1[1]] + [k1[2]], [k2[1]] + [k2[2]]);
    KeyLessCons(k1[1], k2[1], [k1[2]], [k2[2]]);
    KeyLess1(k1[2], k2[2]);
    NumLess(Num(Get(a.signMsg, false)), Num(Get(b.signMsg, false)));
  }

  lemma AuthKeyOrder(mem: Memory, p: Params, q: Params)
    requires HasAuth(p) && HasAuth(q)
    ensures LessAuth(mem, p, q) <==> KeyLess(AuthKey(mem, p), AuthKey(mem, q))
  {
    var a, b := Get(p.authInfo, 0), Get(q.authInfo, 0);
    var k1, k2 := AuthKey(mem, p), AuthKey(mem, q);
    assert k1 == [[1]] + k1[1..] && k2 == [[1]] + k2[1..];
    KeyLessCons([1], [1], k1[1..], k2[1..]);
    NumLess(1, 1);
    KeyTotal(k1[1..], k2[1..]);
    if a != 0 && b != 0 {
      InfoKeyOrder(mem(a), mem(b));
      assert k1[1..] == InfoKey(mem(a)) && k2[1..] == InfoKey(mem(b));
    }
  }

  lemma PathKeyOrder(mem: Memory, p: Params, q: Params)
    ensures LessPath(mem, p, q) <==>
            KeyLess(PathKey(p), PathKey(q)) || (PathKey(p) == PathKey(q) && KeyLess(AuthKey(mem, p), AuthKey(mem, q)))
  {
    var k1, k2 := PathKey(p), PathKey(q);
    TextTotal(k1[0], k2[0]);
    TextTotal(k1[2], k2[2]);
    assert k1 == [k1[0]] + ([k1[1]] + ([k1[2]] + [k1[3]])) && k2 == [k2[0]] + ([k2[1]] + ([k2[2]] + [k2[3]]));
    KeyLessCons(k1[0], k2[0], [k1[1]] + ([k1[2]] + [k1[3]]), [k2[1]] + ([k2[2]] + [k2[3]]));
    KeyLessCons(k1[1], k2[1], [k1[2]] + [k1[3]], [k2[2]] + [k2[3]]);
    KeyLessCons(k1[2], k2[2], [k1[3]], [k2[3]]);
    KeyLess1(k1[3], k2[3]);
    NumLess(Num(Get(p.webSocket, false)), Num(Get(q.webSocket, false)));
    NumLess(Num(Get(p.ssl, false)), Num(Get(q.ssl, false)));
    var a1, a2 := AuthKey(mem, p), AuthKey(mem, q);
    assert a1 == [a1[0]] + a1[1..] && a2 == [a2[0]] + a2[1..];
    KeyLessCons(a1[0], a2[0], a1[1..], a2[1..]);
    NumLess(0, 1);
    NumLess(1, 0);
    NumLess(0, 0);
    KeyTotal(a1[1..], a2[1..]);
    if HasAuth(p) && HasAuth(q) {
      AuthKeyOrder(mem, p, q);
    }
  }

  /** The comparison is the order of the keys. */
  lemma LessIsKeyLess(mem: Memory, p: Params, q: Params)
    ensures Less(mem, p, q) <==> KeyLess(Key(mem, p), Key(mem, q))
  {
    hide PathKey, AuthKey, LessPath;
    var h1, h2 := HeadKey(p), HeadKey(q);
    var t1, t2 := PathKey(p) + AuthKey(mem, p), PathKey(q) + AuthKey(mem, q);
    assert Key(mem, p) == h1 + t1 && Key(mem, q) == h2 + t2;
    KeyLessConcat(h1, h2, t1, t2);
    KeyLessConcat(PathKey(p), PathKey(q), AuthKey(mem, p), AuthKey(mem, q));
    PathKeyOrder(mem, p, q);
    TextTotal(h1[1], h2[1]);
    assert h1 == [h1[0]] + ([h1[1]] + [h1[2]]) && h2 == [h2[0]] + ([h2[1]] + [h2[2]]);
    KeyLessCons(h1[0], h2[0], [h1[1]] + [h1[2]], [h2[1]] + [h2[2]]);
    KeyLessCons(h1[1], h2[1], [h1[2]], [h2[2]]);
    KeyLess1(h1[2], h2[2]);
    NumLess(Num(Get(p.isServer, false)), Num(Get(q.isServer, false)));
    NumLess(Get(p.destPort, 0), Get(q.destPort, 0));
  }

  /** Neither comes before the other. */
  predicate Equivalent(mem: Memory, p: Params, q: Params) {
    !Less(mem, p, q) && !Less(mem, q, p)
  }

  /** A strict weak order; what it does not tell apart are the parameter sets with the same key. */
  lemma StrictWeakOrder(mem: Memory, p: Params, q: Params, r: Params)
    ensures !Less(mem, p, p)
    ensures Less(mem, p, q) && Less(mem, q, r) ==> Less(mem, p, r)
    ensures Equivalent(mem, p, q) && Equivalent(mem, q, r) ==> Equivalent(mem, p, r)
    ensures Equivalent(mem, p, q) <==> Key(mem, p) == Key(mem, q)
  {
    hide Less, Key;
    LessIsKeyLess(mem, p, p);
    LessIsKeyLess(mem, p, q);
    LessIsKeyLess(mem, q, p);
    LessIsKeyLess(mem, q, r);
    LessIsKeyLess(mem, r, q);
    LessIsKeyLess(mem, p, r);
    LessIsKeyLess(mem, r, p);
    var a, b, c := Key(mem, p), Key(mem, q), Key(mem, r);
    KeyTotal(a, b);
    KeyTotal(b, c);
    KeyTotal(a, c);
    if KeyLess(a, b) && KeyLess(b, c) {
      KeyTransitive(a, b, c);
    }
  }

  // ---- Which parameter sets are one key ----

  /** The first character that differs decides, and a text comes before what it is the beginning of. */
  ghost predicate FirstDifference(a: Text, b: Text, i: nat) {
    i <= |a| && i < |b| && a[..i] == b[..i] && (i == |a| || a[i] < b[i])
  }

  lemma {:induction false} TextOrder(a: Text, b: Text)
    ensures TextLess(a, b) <==> exists i: nat :: FirstDifference(a, b, i)
  {
    if b == [] {
    } else if a == [] {
      assert FirstDifference(a, b, 0);
    } else if a[0] != b[0] {
      assert a[0] < b[0] ==> FirstDifference(a, b, 0);
      forall i: nat | FirstDifference(a, b, i) ensures i == 0 {
        FirstCharacter(a, b, i);
      }
    } else {
      TextOrder(a[1..], b[1..]);
      if TextLess(a, b) {
        var i: nat :| FirstDifference(a[1..], b[1..], i);
        assert a[..i + 1] == [a[0]] + a[1..][..i] && b[..i + 1] == [b[0]] + b[1..][..i];
        assert FirstDifference(a, b, i + 1);
      }
      if i: nat :| FirstDifference(a, b, i) {
        assert a[1..][..i - 1] == a[..i][1..] && b[1..][..i - 1] == b[..i][1..];
        assert FirstDifference(a[1..], b[1..], i - 1);
      }
    }
  }

  lemma FirstCharacter(a: Text, b: Text, i: nat)
    requires a != [] && b != [] && FirstDifference(a, b, i)
    ensures i > 0 ==> a[0] == b[0]
  {
    if i > 0 {
      assert a[..i][0] == b[..i][0];
    }
  }

  /** A letter and the same letter, in either case. */
  predicate SameLetter(c: nat, d: nat) {
    c == d || (65 <= c <= 90 && d == c + 32) || (65 <= d <= 90 && c == d + 32)
  }

  predicate SameButForCase(a: Text, b: Text) {
    |a| == |b| && forall i :: 0 <= i < |a| ==> SameLetter(a[i], b[i])
  }

  lemma FoldsCase(a: Text, b: Text)
    ensures ToLower(a) == ToLower(b) <==> SameButForCase(a, b)
  {
    var x, y := ToLower(a), ToLower(b);
    if x == y {
      forall i | 0 <= i < |a| ensures SameLetter(a[i], b[i]) {
        assert x[i] == y[i];
      }
    }
  }

  /** The mechanism, and for krb5 the user, the realm in either case, and signing. */
  predicate SameInfo(a: Auth, b: Auth) {
    var mech := Get(a.mech, []);
    && mech == Get(b.mech, [])
    && (mech == [107, 114, 98, 53] ==>
          var user := Get(a.user, mech);
          && user == Get(b.user, mech)
          && SameButForCase(Get(a.realm, user), Get(b.realm, user))
          && Get(a.signMsg, false) == Get(b.signMsg, false))
  }

  predicate SameAuth(mem: Memory, p: Params, q: Params) {
    var a, b := Get(p.authInfo, 0), Get(q.authInfo, 0);
    HasAuth(p) == HasAuth(q) && (HasAuth(p) ==> a == b || (a != 0 && b != 0 && SameInfo(mem(a), mem(b))))
  }

  predicate SameConnection(mem: Memory, p: Params, q: Params) {
    && Get(p.isServer, false) == Get(q.isServer, false)
    && Get(p.destIp, []) == Get(q.destIp, []) && Get(p.destPort, 0) == Get(q.destPort, 0)
    && Get(p.routerPath, []) == Get(q.routerPath, [])
    && Get(p.webSocket, false) == Get(q.webSocket, false)
    && (Get(p.webSocket, false) ==> Get(p.url, []) == Get(q.url, []))
    && Get(p.ssl, false) == Get(q.ssl, false)
    && SameAuth(mem, p, q)
  }

  lemma SameNum(a: bool, b: bool)
    ensures [Num(a)] == [Num(b)] <==> a == b
  {
    assert [Num(a)][0] == Num(a) && [Num(b)][0] == Num(b);
  }

  lemma SameInfoKey(a: Auth, b: Auth)
    ensures InfoKey(a) == InfoKey(b) <==> SameInfo(a, b)
  {
    hide ToLower, SameButForCase;
    var k1, k2 := InfoKey(a), InfoKey(b);
    var mech1, mech2 := Get(a.mech, []), Get(b.mech, []);
    assert ([1] + mech1)[1..] == mech1 && ([1] + mech2)[1..] == mech2;
    assert k1 == k2 <==> k1[0] == k2[0] && k1[1] == k2[1] && k1[2] == k2[2] && k1[3] == k2[3];
    FoldsCase(Get(a.realm, Get(a.user, mech1)), Get(b.realm, Get(b.user, mech2)));
    SameNum(Get(a.signMsg, false), Get(b.signMsg, false));
  }

  lemma SameAuthKey(mem: Memory, p: Params, q: Params)
    ensures AuthKey(mem, p) == AuthKey(mem, q) <==> SameAuth(mem, p, q)
  {
    hide InfoKey, SameInfo;
    var a, b := Get(p.authInfo, 0), Get(q.authInfo, 0);
    var k1, k2 := AuthKey(mem, p), AuthKey(mem, q);
    assert k1 == [k1[0]] + k1[1..] && k2 == [k2[0]] + k2[1..];
    MarkedInfo(mem(a));
    MarkedInfo(mem(b));
    SameInfoKey(mem(a), mem(b));
    assert HasAuth(p) ==> k1[0] == [1];
    assert !HasAuth(p) ==> k1[0] == [0];
    assert HasAuth(q) ==> k2[0] == [1];
    assert !HasAuth(q) ==> k2[0] == [0];
    assert [0] != [1] by {
      assert [0][0] != [1][0];
    }
    if HasAuth(p) && HasAuth(q) {
      assert k1[1..] == if a == 0 then [[], [], [], []] else InfoKey(mem(a));
      assert k2[1..] == if b == 0 then [[], [], [], []] else InfoKey(mem(b));
    }
  }

  lemma MarkedInfo(a: Auth)
    ensures InfoKey(a) != [[], [], [], []]
  {
    assert InfoKey(a)[0][0] == 1;
  }

  /**
   Two parameter sets are one key of the map exactly when they agree in every field that is looked at,
   the URL for websockets only, the realm for krb5 only and without regard to case.
   */
  lemma EquivalentMeans(mem: Memory, p: Params, q: Params)
    ensures Equivalent(mem, p, q) <==> SameConnection(mem, p, q)
  {
    hide Equivalent, AuthKey, SameAuth;
    StrictWeakOrder(mem, p, q, q);
    SameAuthKey(mem, p, q);
    var h1, h2, t1, t2 := HeadKey(p), HeadKey(q), PathKey(p), PathKey(q);
    var a1, a2 := AuthKey(mem, p), AuthKey(mem, q);
    KeyParts(h1, t1, a1, h2, t2, a2);
    SameNum(Get(p.isServer, false), Get(q.isServer, false));
    SameNum(Get(p.webSocket, false), Get(q.webSocket, false));
    SameNum(Get(p.ssl, false), Get(q.ssl, false));
    assert [Get(p.destPort, 0)][0] == Get(p.destPort, 0) && [Get(q.destPort, 0)][0] == Get(q.destPort, 0);
    assert h1 == h2 <==> h1[0] == h2[0] && h1[1] == h2[1] && h1[2] == h2[2];
    assert t1 == t2 <==> t1[0] == t2[0] && t1[1] == t2[1] && t1[2] == t2[2] && t1[3] == t2[3];
  }

  lemma KeyParts(a: seq<Text>, b: seq<Text>, c: seq<Text>, x: seq<Text>, y: seq<Text>, z: seq<Text>)
    requires |a| == |x| && |b| == |y|
    ensures a + b + c == x + y + z <==> a == x && b == y && c == z
  {
    var k, l := a + b + c, x + y + z;
    if k == l {
      assert a == k[..|a|] && b == k[|a|..|a| + |b|] && c == k[|a| + |b|..];
      assert x == l[..|a|] && y == l[|a|..|a| + |b|] && z == l[|a| + |b|..];
    }
  }

  // ---- Which field decides ----

  /** A client comes before a server; then the address decides, then the port, then the rest. */
  lemma HeadDecides(mem: Memory, p: Params, q: Params)
    ensures var server1, server2 := Get(p.isServer, false), Get(q.isServer, false);
            var ip1, ip2 := Get(p.destIp, []), Get(q.destIp, []);
            var port1, port2 := Get(p.destPort, 0), Get(q.destPort, 0);
            && (server1 != server2 ==> (Less(mem, p, q) <==> server2))
            && (server1 == server2 && ip1 != ip2 ==> (Less(mem, p, q) <==> TextLess(ip1, ip2)))
            && (server1 == server2 && ip1 == ip2 && port1 != port2 ==> (Less(mem, p, q) <==> port1 < port2))
            && (server1 == server2 && ip1 == ip2 && port1 == port2 ==>
                  (Less(mem, p, q) <==> LessPath(mem, p, q)))
  {
    hide TextLess, LessPath;
    TextTotal(Get(p.destIp, []), Get(q.destIp, []));
    TextTotal(Get(q.destIp, []), Get(p.destIp, []));
  }

  /**
   The router path decides; then no websocket comes before a websocket and two of them go by their URL;
   then no SSL comes before SSL, and no authentication before authentication.
   */
  lemma PathDecides(mem: Memory, p: Params, q: Params)
    ensures var path1, path2 := Get(p.routerPath, []), Get(q.routerPath, []);
            var ws1, ws2 := Get(p.webSocket, false), Get(q.webSocket, false);
            var url1, url2 := Get(p.url, []), Get(q.url, []);
            var ssl1, ssl2 := Get(p.ssl, false), Get(q.ssl, false);
            var here := path1 == path2 && ws1 == ws2 && (ws1 ==> url1 == url2);
            && (path1 != path2 ==> (LessPath(mem, p, q) <==> TextLess(path1, path2)))
            && (path1 == path2 && ws1 != ws2 ==> (LessPath(mem, p, q) <==> ws2))
            && (path1 == path2 && ws1 && ws2 && url1 != url2 ==> (LessPath(mem, p, q) <==> TextLess(url1, url2)))
            && (here && ssl1 != ssl2 ==> (LessPath(mem, p, q) <==> ssl2))
            && (here && ssl1 == ssl2 && HasAuth(p) != HasAuth(q) ==> (LessPath(mem, p, q) <==> HasAuth(q)))
            && (here && ssl1 == ssl2 && !HasAuth(p) && !HasAuth(q) ==> !LessPath(mem, p, q))
            && (here && ssl1 == ssl2 && HasAuth(p) && HasAuth(q) ==>
                  (LessPath(mem, p, q) <==> LessAuth(mem, p, q)))
  {
    hide TextLess, LessAuth;
    TextTotal(Get(p.routerPath, []), Get(q.routerPath, []));
    TextTotal(Get(q.routerPath, []), Get(p.routerPath, []));
    TextTotal(Get(p.url, []), Get(q.url, []));
    TextTotal(Get(q.url, []), Get(p.url, []));
  }
}
