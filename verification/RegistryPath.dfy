/** Registry paths: the parser that reads a path from its right end, and the left-to-right meaning of it. */
module RegistryPath {
  import opened Bytes

  const REG_MAX_PATH: nat := 2048
  const REG_MAX_NAME: nat := 128

  /** The length of the part that starts at the front of `s`. */
  function PartLen(s: string): (n: nat)
    ensures n <= |s| && '/' !in s[..n] && (n < |s| ==> s[n] == '/')
  {
    if s == "" || s[0] == '/' then 0 else 1 + PartLen(s[1..])
  }

  /** The non-empty parts between slashes, left to right. */
  function Parts(s: string): seq<string>
    decreases |s|
  {
    if s == "" then []
    else if s[0] == '/' then Parts(s[1..])
    else [s[..PartLen(s)]] + Parts(s[PartLen(s)..])
  }

  /** One leading slash is a component of its own. */
  function Components(s: string): seq<string> {
    (if s != "" && s[0] == '/' then ["/"] else []) + Parts(s)
  }

  function Reverse<T>(s: seq<T>): (r: seq<T>)
    ensures |r| == |s|
  {
    if s == [] then [] else Reverse(s[1..]) + [s[0]]
  }

  lemma {:induction false} ReverseAppend<T>(s: seq<T>, x: T)
    ensures Reverse(s + [x]) == [x] + Reverse(s)
  {
    if s != [] {
      ReverseAppend(s[1..], x);
      assert (s + [x])[1..] == s[1..] + [x];
    } else {
      assert s + [x] == [x];
    }
  }

  lemma {:induction false} PartLenIs(s: string, n: nat)
    requires n <= |s| && '/' !in s[..n] && (n < |s| ==> s[n] == '/')
    ensures PartLen(s) == n
  {
    if n > 0 {
      assert s[0] in s[..n] && s[1..][..n - 1] == s[..n][1..];
      PartLenIs(s[1..], n - 1);
    }
  }

  /** A slash separates: what is left of it and what is right of it are split on their own. */
  lemma {:induction false} PartsAtSlash(a: string, b: string)
    ensures Parts(a + "/" + b) == Parts(a) + Parts(b)
    decreases |a|
  {
    var s := a + "/" + b;
    if a == "" {
      assert s[1..] == b;
    } else if a[0] == '/' {
      PartsAtSlash(a[1..], b);
      assert s[1..] == a[1..] + "/" + b;
    } else {
      var n := PartLen(a);
      assert s[..n] == a[..n];
      PartLenIs(s, n);
      assert s[n..] == a[n..] + "/" + b;
      PartsAtSlash(a[n..], b);
      assert Parts(s) == [s[..n]] + Parts(s[n..]);
    }
  }

  lemma OnePart(s: string)
    requires s != "" && '/' !in s
    ensures Parts(s) == [s] && Components(s) == [s]
  {
    PartLenIs(s, |s|);
    assert s[..|s|] == s;
    assert Parts(s[|s|..]) == [];
  }

  /** What cutting the last part, or a trailing slash, off a path does to its components. */
  lemma CutLast(s: string, pos: nat)
    requires pos < |s| && s[pos] == '/' && '/' !in s[pos + 1..]
    ensures var last := s[pos + 1..];
            && (pos > 0 && last == "" ==> Components(s) == Components(s[..pos]))
            && (pos > 0 && last != "" ==> Components(s) == Components(s[..pos]) + [last])
            && (pos == 0 && last == "" ==> Components(s) == ["/"])
            && (pos == 0 && last != "" ==> Components(s) == Components("/") + [last])
  {
    var last := s[pos + 1..];
    assert s == s[..pos] + "/" + last;
    PartsAtSlash(s[..pos], last);
    if last != "" {
      OnePart(last);
    }
    assert Components("/") == ["/"];
  }

  /** std::string::rfind. */
  method RFind(s: string, c: char) returns (pos: int)
    ensures -1 <= pos < |s|
    ensures pos >= 0 ==> s[pos] == c
    ensures c !in s[pos + 1..]
  {
    pos := |s| - 1;
    while pos >= 0 && s[pos] != c
      invariant -1 <= pos < |s|
      invariant c !in s[pos + 1..]
    {
      pos := pos - 1;
    }
  }

  predicate ValidPath(path: string) {
    0 < |path| <= REG_MAX_PATH
  }

  /** The parser of the source: from the right end, shrinking the string, then reversing. */
  method Namei(path: string) returns (ret: int, comps: seq<string>)
    ensures ret == if ValidPath(path) then 0 else E_INVAL
    ensures ret == 0 ==> comps == Components(path)
    ensures ret != 0 ==> comps == []
  {
    comps := [];
    if path == "" || |path| > REG_MAX_PATH {
      return E_INVAL, comps;
    }
    var temp := path;
    while |temp| > 0
      invariant temp != "" || comps != []
      invariant Components(path) == Components(temp) + Reverse(comps)
      decreases |temp|
    {
      var pos := RFind(temp, '/');
      if pos == -1 {
        OnePart(temp);
        ReverseAppend(comps, temp);
        comps := comps + [temp];
        assert Components(path) == Reverse(comps);
        break;
      }
      CutLast(temp, pos);
      if pos > 0 && pos + 1 == |temp| {
        temp := temp[..pos];
        continue;
      } else if pos == 0 && pos + 1 == |temp| {
        assert temp == "/";
        ReverseAppend(comps, temp);
        comps := comps + [temp];
        assert Components(path) == Reverse(comps);
        break;
      }
      ReverseAppend(comps, temp[pos + 1..]);
      comps := comps + [temp[pos + 1..]];
      if pos > 0 {
        temp := temp[..pos];
      } else {
        assert temp[..pos + 1] == "/";
        temp := temp[..pos + 1];
      }
    }
    return 0, Reverse(comps);
  }

  // ---- Components are canonical ----

  predicate IsPart(c: string) {
    c != "" && '/' !in c
  }

  /** A non-empty list of parts, the first of which may be the root slash. */
  predicate IsComponents(cs: seq<string>) {
    && cs != [] && (cs[0] == "/" || IsPart(cs[0]))
    && forall i :: 0 < i < |cs| ==> IsPart(cs[i])
  }

  function JoinParts(ps: seq<string>): string {
    if ps == [] then "" else if |ps| == 1 then ps[0] else ps[0] + "/" + JoinParts(ps[1..])
  }

  function JoinComponents(cs: seq<string>): string
    requires cs != []
  {
    if cs[0] == "/" then "/" + JoinParts(cs[1..]) else JoinParts(cs)
  }

  lemma {:induction false} PartsAreParts(s: string)
    ensures forall i :: 0 <= i < |Parts(s)| ==> IsPart(Parts(s)[i])
    ensures s != "" && s[0] != '/' ==> Parts(s) != []
    decreases |s|
  {
    if s != "" {
      if s[0] == '/' {
        PartsAreParts(s[1..]);
      } else {
        assert s[..PartLen(s)] != "";
        PartsAreParts(s[PartLen(s)..]);
      }
    }
  }

  /** The components of a path are never empty, and only the first can be the root slash. */
  lemma ComponentsAreComponents(path: string)
    requires path != ""
    ensures IsComponents(Components(path))
  {
    PartsAreParts(path);
  }

  lemma {:induction false} PartsOfJoin(ps: seq<string>)
    requires forall i :: 0 <= i < |ps| ==> IsPart(ps[i])
    ensures Parts(JoinParts(ps)) == ps
    ensures ps != [] ==> JoinParts(ps) != "" && JoinParts(ps)[0] != '/'
  {
    if ps != [] {
      OnePart(ps[0]);
      assert ps[0][0] in ps[0];
      PartsAtSlash(ps[0], JoinParts(ps[1..]));
      PartsOfJoin(ps[1..]);
    }
  }

  /** Joining components and splitting the result gives the components back. */
  lemma JoinThenSplit(cs: seq<string>)
    requires IsComponents(cs)
    ensures Components(JoinComponents(cs)) == cs
  {
    if cs[0] == "/" {
      var rest := JoinParts(cs[1..]);
      PartsOfJoin(cs[1..]);
      assert ("/" + rest)[1..] == rest;
    } else {
      PartsOfJoin(cs);
    }
  }
}
