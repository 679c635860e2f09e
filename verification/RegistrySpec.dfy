/** What the registry operations mean on paths alone: a tree is a set of paths. */
module RegistrySpec {
  import opened Bytes
  import opened RegistryPath

  type Path = seq<string>

  function Init(p: Path): Path
    requires p != []
  {
    p[..|p| - 1]
  }

  function Last(p: Path): string
    requires p != []
  {
    p[|p| - 1]
  }

  /** Closed under parents, names within the limit. */
  ghost predicate IsTree(paths: set<Path>) {
    forall p :: p in paths && p != [] ==> Init(p) in paths && |Last(p)| <= REG_MAX_NAME
  }

  /** The paths that extend `p`; `p` is one of them when `self` is set. */
  ghost function Below(paths: set<Path>, p: Path, self: bool): set<Path> {
    set q | q in paths && Under(q, p, self)
  }

  /** Where a path leads when every component is a plain name. */
  function Target(at: Path, comps: seq<string>): Path {
    Base(at, comps) + Rel(comps)
  }

  /** Where a path starts when every component is a plain name, and the names it goes through. */
  function Base(at: Path, comps: seq<string>): Path {
    if comps != [] && comps[0] == "/" then [] else at
  }

  function Rel(comps: seq<string>): seq<string> {
    if comps != [] && comps[0] == "/" then comps[1..] else comps
  }

  /** None of the chain's directories from the `r`-th to the `k`-th exists. */
  ghost predicate Missing(paths: set<Path>, base: Path, rel: Path, r: nat, k: nat)
    requires k <= |rel|
  {
    forall j :: r < j <= k ==> base + rel[..j] !in paths
  }

  predicate NamesFit(names: seq<string>) {
    forall n <- names :: |n| <= REG_MAX_NAME
  }

  /** The first `k` directories of a chain under `base`. */
  ghost function Chain(base: Path, rel: Path, k: nat): set<Path>
    requires k <= |rel|
  {
    set j | 0 < j <= k :: base + rel[..j]
  }

  lemma ChainStep(base: Path, rel: Path, k: nat)
    requires k < |rel|
    ensures Chain(base, rel, k + 1) == Chain(base, rel, k) + {base + rel[..k + 1]}
    ensures base + rel[..k + 1] == base + rel[..k] + [rel[k]]
    ensures forall q :: q in Chain(base, rel, k) ==> |q| < |base| + k + 1
  {
  }

  predicate Under(q: Path, p: Path, self: bool) {
    p <= q && (self || p != q)
  }

  lemma AppendInjective(p: Path, n: string, q: Path, m: string)
    ensures p + [n] == q + [m] ==> p == q && n == m
  {
    assert Init(p + [n]) == p && Init(q + [m]) == q && Last(p + [n]) == n && Last(q + [m]) == m;
  }

  lemma {:induction false} PrefixInTree(paths: set<Path>, p: Path, n: nat)
    requires IsTree(paths) && p in paths && n <= |p|
    ensures p[..n] in paths
    decreases |p|
  {
    if n < |p| {
      PrefixInTree(paths, Init(p), n);
      assert Init(p)[..n] == p[..n];
    } else {
      assert p[..n] == p;
    }
  }

  lemma NoDescendant(paths: set<Path>, p: Path, q: Path)
    requires IsTree(paths) && p !in paths && p <= q
    ensures q !in paths
  {
    assert q[..|p|] == p;
    if q in paths {
      PrefixInTree(paths, q, |p|);
    }
  }

  /** Below a directory that was just made nothing exists. */
  lemma MissingNone(paths: set<Path>, base: Path, rel: Path, k: nat)
    requires k <= |rel|
    ensures Missing(paths, base, rel, k, k)
  {
  }

  lemma MissingStep(paths: set<Path>, base: Path, rel: Path, r: nat, k: nat)
    requires r <= k < |rel| && (r < k ==> Missing(paths, base, rel, r, k)) && base + rel[..k + 1] !in paths
    ensures Missing(paths, base, rel, r, k + 1)
  {
  }

  lemma NamesFitNone(rel: Path)
    ensures NamesFit(rel[..0])
  {
  }

  lemma NamesFitStep(rel: Path, i: nat)
    requires i < |rel|
    ensures NamesFit(rel[..i + 1]) <==> NamesFit(rel[..i]) && |rel[i]| <= REG_MAX_NAME
    ensures NamesFit(rel) ==> |rel[i]| <= REG_MAX_NAME
  {
    assert rel[..i + 1] == rel[..i] + [rel[i]];
  }

  lemma NothingFurther(paths: set<Path>, base: Path, rel: Path, r: nat, k: nat)
    requires IsTree(paths) && r < k < |rel| && Missing(paths, base, rel, r, k)
    ensures base + rel[..k + 1] !in paths && base + rel[..k + 1] !in Chain(base, rel, k)
  {
    ChainStep(base, rel, k);
    NoDescendant(paths, base + rel[..k], base + rel[..k + 1]);
  }

  lemma ChainInTree(paths: set<Path>, base: Path, rel: Path, k: nat)
    requires IsTree(paths) && k <= |rel| && base + rel[..k] in paths
    ensures Chain(base, rel, k) <= paths
  {
    forall j | 0 < j <= k
      ensures base + rel[..j] in paths
    {
      PrefixInTree(paths, base + rel[..k], |base| + j);
      assert (base + rel[..k])[..|base| + j] == base + rel[..j];
    }
  }

  /** One component of a ChangeDir. */
  function StepTo(paths: set<Path>, at: Path, comp: string): Option<Path> {
    if comp == "." then Some(at)
    else if comp == ".." then (if at == [] then None else Some(Init(at)))
    else if comp == "/" then Some([])
    else if at + [comp] in paths then Some(at + [comp])
    else None
  }

  function Resolve(paths: set<Path>, at: Path, comps: seq<string>): Option<Path>
    decreases |comps|
  {
    if comps == [] then Some(at)
    else
      var next := StepTo(paths, at, comps[0]);
      if next.None? then None else Resolve(paths, next.value, comps[1..])
  }

  lemma ResolveStep(paths: set<Path>, at: Path, comps: seq<string>, i: nat)
    requires i <= |comps|
    ensures i == |comps| ==> Resolve(paths, at, comps[i..]) == Some(at)
    ensures i < |comps| ==>
              var next := StepTo(paths, at, comps[i]);
              Resolve(paths, at, comps[i..]) ==
              if next.None? then None else Resolve(paths, next.value, comps[i + 1..])
  {
    if i < |comps| {
      assert comps[i..][0] == comps[i] && comps[i..][1..] == comps[i + 1..];
    }
  }

  /** ".." leads to the parent. */
  lemma StepUp(paths: set<Path>, at: Path)
    ensures Components("..") == [".."]
    ensures Resolve(paths, at, [".."]) == if at == [] then None else Some(Init(at))
  {
    OnePart("..");
    assert [".."][1..] == [];
  }

  /** A path is followed one part after the other. */
  lemma {:induction false} ResolveConcat(paths: set<Path>, at: Path, a: seq<string>, b: seq<string>)
    ensures var mid := Resolve(paths, at, a);
            Resolve(paths, at, a + b) == if mid.None? then None else Resolve(paths, mid.value, b)
    decreases |a|
  {
    if a == [] {
      assert a + b == b;
    } else {
      var next := StepTo(paths, at, a[0]);
      assert (a + b)[1..] == a[1..] + b;
      if next.Some? {
        ResolveConcat(paths, next.value, a[1..], b);
      }
    }
  }

  /** What each kind of component does anywhere in a path, wherever the path has led by then. */
  lemma EachComponent(paths: set<Path>, at: Path, comps: seq<string>, name: string)
    requires name != "." && name != ".." && name != "/"
    ensures Resolve(paths, at, ["."] + comps) == Resolve(paths, at, comps)
    ensures Resolve(paths, at, ["/"] + comps) == Resolve(paths, [], comps)
    ensures Resolve(paths, at, [".."] + comps) == if at == [] then None else Resolve(paths, at[..|at| - 1], comps)
    ensures Resolve(paths, at, [name] + comps)
         == if at + [name] in paths then Resolve(paths, at + [name], comps) else None
  {
    assert (["."] + comps)[1..] == (["/"] + comps)[1..] == ([".."] + comps)[1..] == ([name] + comps)[1..] == comps;
    assert "." != ".." && "." != "/" && ".." != "/";
  }

  /** A path without its "." components. */
  function WithoutDots(comps: seq<string>): (r: seq<string>)
    ensures forall i :: 0 <= i < |r| ==> r[i] != "." && r[i] in comps
  {
    if comps == [] then []
    else if comps[0] == "." then WithoutDots(comps[1..])
    else [comps[0]] + WithoutDots(comps[1..])
  }

  /** They make no difference to where a path leads. */
  lemma {:induction false} DotsDoNothing(paths: set<Path>, at: Path, comps: seq<string>)
    ensures Resolve(paths, at, WithoutDots(comps)) == Resolve(paths, at, comps)
    decreases |comps|
  {
    if comps != [] {
      var next := StepTo(paths, at, comps[0]);
      assert [comps[0]] + WithoutDots(comps[1..]) != [];
      assert ([comps[0]] + WithoutDots(comps[1..]))[1..] == WithoutDots(comps[1..]);
      if next.Some? {
        DotsDoNothing(paths, next.value, comps[1..]);
      }
    }
  }

  /** Going into a directory and up again is staying. */
  lemma IntoAndUp(paths: set<Path>, at: Path, name: string, comps: seq<string>)
    requires name != "." && name != ".." && name != "/" && at + [name] in paths
    ensures Resolve(paths, at, [name, ".."] + comps) == Resolve(paths, at, comps)
  {
    EachComponent(paths, at, [".."] + comps, name);
    EachComponent(paths, at + [name], comps, name);
    assert [name, ".."] + comps == [name] + ([".."] + comps);
    assert (at + [name])[..|at|] == at;
  }

  // ---- The operations agree ----

  predicate NoDots(comps: seq<string>) {
    forall i :: 0 <= i < |comps| ==> comps[i] != "." && comps[i] != ".."
  }

  /** Without "." and "..", following a path and looking its target up come to the same. */
  lemma PlainResolve(paths: set<Path>, at: Path, comps: seq<string>)
    requires IsTree(paths) && at in paths && [] in paths
    requires IsComponents(comps) && NoDots(comps)
    ensures Resolve(paths, at, comps)
            == if Target(at, comps) in paths then Some(Target(at, comps)) else None
  {
    if comps[0] == "/" {
      PlainSteps(paths, [], comps[1..]);
    } else {
      PlainSteps(paths, at, comps);
    }
  }

  lemma {:induction false} PlainSteps(paths: set<Path>, at: Path, names: seq<string>)
    requires IsTree(paths) && at in paths
    requires NoDots(names) && forall i :: 0 <= i < |names| ==> names[i] != "/"
    ensures Resolve(paths, at, names) == if at + names in paths then Some(at + names) else None
    decreases |names|
  {
    if names == [] {
      assert at + names == at;
    } else {
      var next := at + [names[0]];
      assert at + names == next + names[1..];
      if next in paths {
        PlainSteps(paths, next, names[1..]);
      } else {
        NoDescendant(paths, next, at + names);
      }
    }
  }

  /** A component adds at most one name to where a path has led, and a dot adds none. */
  lemma {:induction false} ResolveLength(paths: set<Path>, at: Path, comps: seq<string>)
    requires forall i :: 0 <= i < |comps| ==> comps[i] != "/"
    ensures var to := Resolve(paths, at, comps);
            to.Some? ==> |to.value| <= |at| + |comps| - (if NoDots(comps) then 0 else 1)
    decreases |comps|
  {
    if comps != [] {
      var next := StepTo(paths, at, comps[0]);
      if next.Some? {
        ResolveLength(paths, next.value, comps[1..]);
        assert NoDots(comps[1..]) && comps[0] != "." && comps[0] != ".." ==> NoDots(comps) by {
          assert comps == [comps[0]] + comps[1..];
        }
      }
    }
  }

  /** A path with a dot never leads to the directory that its components spell out, in any tree. */
  lemma DotsLeadElsewhere(paths: set<Path>, at: Path, comps: seq<string>)
    requires IsComponents(comps) && !NoDots(comps)
    ensures Resolve(paths, at, comps) != Some(Target(at, comps))
  {
    if comps[0] == "/" {
      assert comps == ["/"] + comps[1..];
      ResolveLength(paths, [], comps[1..]);
    } else {
      ResolveLength(paths, at, comps);
    }
  }

  /**
   ChangeDir leads to the directory that ExistingDir looks up exactly when that directory exists and
   the path has neither "." nor "..".
   */
  lemma ResolveIsTarget(paths: set<Path>, at: Path, comps: seq<string>)
    requires IsTree(paths) && at in paths && [] in paths && IsComponents(comps)
    ensures Resolve(paths, at, comps) == Some(Target(at, comps)) <==> NoDots(comps) && Target(at, comps) in paths
  {
    if NoDots(comps) {
      PlainResolve(paths, at, comps);
    } else {
      DotsLeadElsewhere(paths, at, comps);
    }
  }

  /** After a successful MakeDir, ChangeDir leads to where it went exactly when the path has no dots. */
  lemma MakeThenChange(paths: set<Path>, at: Path, comps: seq<string>)
    requires IsTree(paths) && at in paths && [] in paths
    requires IsComponents(comps) && NamesFit(Rel(comps))
    ensures var made := paths + Chain(Base(at, comps), Rel(comps), |Rel(comps)|);
            && IsTree(made) && Target(at, comps) in made
            && (Resolve(made, at, comps) == Some(Target(at, comps)) <==> NoDots(comps))
  {
    var base, rel := Base(at, comps), Rel(comps);
    ChainIsTree(paths, base, rel);
    var made := paths + Chain(base, rel, |rel|);
    assert Target(at, comps) in made by {
      assert base + rel[..|rel|] == base + rel;
      if rel != [] {
        assert base + rel[..|rel|] in Chain(base, rel, |rel|);
      }
    }
    ResolveIsTarget(made, at, comps);
  }

  lemma ChainIsTree(paths: set<Path>, base: Path, rel: Path)
    requires IsTree(paths) && base in paths && NamesFit(rel)
    ensures IsTree(paths + Chain(base, rel, |rel|))
  {
    var made := paths + Chain(base, rel, |rel|);
    forall p | p in Chain(base, rel, |rel|) && p != []
      ensures Init(p) in made && |Last(p)| <= REG_MAX_NAME
    {
      var j :| 0 < j <= |rel| && p == base + rel[..j];
      assert Init(p) == base + rel[..j - 1] && Last(p) == rel[j - 1];
      assert rel[j - 1] in rel;
      if j == 1 {
        assert base + rel[..0] == base;
      }
    }
  }

  /** With a dot they part: "." leads to the current directory, but is no directory of that name. */
  lemma DotsDiffer()
    ensures var paths: set<Path> := {[]};
            && Components(".") == ["."]
            && Resolve(paths, [], ["."]) == Some([])
            && Target([], ["."]) !in paths
  {
    OnePart(".");
    assert ["."][1..] == [];
  }

  // ---- Runs ----

  datatype State = State(paths: set<Path>, cur: Path)

  datatype Op = Change(path: string) | Make(path: string) | Remove(path: string)

  ghost predicate GoodState(s: State) {
    IsTree(s.paths) && [] in s.paths && s.cur in s.paths
  }

  /** What one operation does to the paths and the current directory. */
  ghost function Apply(s: State, op: Op): State {
    var comps := Components(op.path);
    if !ValidPath(op.path) then s
    else if op.Make? then
      if !NamesFit(Rel(comps)) then s
      else State(s.paths + Chain(Base(s.cur, comps), Rel(comps), |Rel(comps)|), Target(s.cur, comps))
    else
      var to := Resolve(s.paths, s.cur, comps);
      if to.None? then s
      else if op.Change? then s.(cur := to.value)
      else State(s.paths - Below(s.paths, to.value, to.value != []), if to.value == [] then [] else Init(to.value))
  }

  /** What it returns. */
  ghost function Answer(s: State, op: Op): int {
    var comps := Components(op.path);
    if !ValidPath(op.path) then E_INVAL
    else if op.Make? then if NamesFit(Rel(comps)) then 0 else E_INVAL
    else if Resolve(s.paths, s.cur, comps).None? then E_NOENT
    else 0
  }

  /** After a make: the prefixes of the new directory are added, and it is the current one. */
  lemma AfterMake(s: State, path: string, names: seq<string>)
    requires ValidPath(path) && NamesFit(names)
    ensures Components(path) == ["/"] + names ==>
              var t := Apply(s, Make(path));
              && t.cur == names
              && forall q :: q in t.paths <==> q in s.paths || (q <= names && q != [])
    ensures Components(path) == names && names != [] && names[0] != "/" ==>
              var t := Apply(s, Make(path));
              && t.cur == s.cur + names
              && forall q :: q in t.paths <==> q in s.paths || (s.cur <= q <= s.cur + names && q != s.cur)
  {
    var comps := Components(path);
    var base, rel := Base(s.cur, comps), Rel(comps);
    assert comps == ["/"] + names ==> comps[1..] == names;
    forall q: Path
      ensures q in Chain(base, rel, |rel|) <==> base <= q <= base + rel && q != base
    {
      ChainIsPrefixes(base, rel, q);
    }
  }

  lemma ChainIsPrefixes(base: Path, rel: Path, q: Path)
    ensures q in Chain(base, rel, |rel|) <==> base <= q <= base + rel && q != base
  {
    if base <= q <= base + rel && q != base {
      var j := |q| - |base|;
      assert q == (base + rel)[..|q|] == base + rel[..j];
    }
    if q in Chain(base, rel, |rel|) {
      var j :| 0 < j <= |rel| && q == base + rel[..j];
      assert (base + rel)[..|q|] == q && q[..|base|] == base;
    }
  }

  /** After a removal: the directory it leads to is gone with all below it, and its parent is the current one. */
  lemma AfterRemove(s: State, path: string)
    requires ValidPath(path) && Resolve(s.paths, s.cur, Components(path)).Some?
    ensures var to, t := Resolve(s.paths, s.cur, Components(path)).value, Apply(s, Remove(path));
            && (to != [] ==> t.cur == to[..|to| - 1] && forall q :: q in t.paths <==> q in s.paths && !(to <= q))
            && (to == [] ==> t.cur == [] && forall q :: q in t.paths <==> q in s.paths && q == [])
  {
  }

  ghost function Run(s: State, ops: seq<Op>): State
    decreases |ops|
  {
    if ops == [] then s else Run(Apply(s, ops[0]), ops[1..])
  }

  lemma {:induction false} ResolveInTree(paths: set<Path>, at: Path, comps: seq<string>)
    requires IsTree(paths) && [] in paths && at in paths
    ensures var to := Resolve(paths, at, comps); to.Some? ==> to.value in paths
    decreases |comps|
  {
    if comps != [] {
      var next := StepTo(paths, at, comps[0]);
      if next.Some? {
        ResolveInTree(paths, next.value, comps[1..]);
      }
    }
  }

  /** Whatever is made and removed, the paths stay a tree and the current directory stays in it. */
  lemma {:induction false} RunKeepsTree(s: State, ops: seq<Op>)
    requires GoodState(s)
    ensures GoodState(Run(s, ops))
    decreases |ops|
  {
    if ops != [] {
      ApplyKeepsTree(s, ops[0]);
      RunKeepsTree(Apply(s, ops[0]), ops[1..]);
    }
  }

  lemma ApplyKeepsTree(s: State, op: Op)
    requires GoodState(s)
    ensures GoodState(Apply(s, op))
  {
    var comps := Components(op.path);
    ResolveInTree(s.paths, s.cur, comps);
    var base, rel := Base(s.cur, comps), Rel(comps);
    if ValidPath(op.path) {
      match op
      case Change(_) =>
      case Make(_) =>
        if NamesFit(rel) {
          ChainIsTree(s.paths, base, rel);
          assert base + rel[..|rel|] == base + rel;
          assert rel != [] ==> base + rel[..|rel|] in Chain(base, rel, |rel|);
        }
      case Remove(_) =>
        var to := Resolve(s.paths, s.cur, comps);
        if to.Some? {
          PruneKeepsTree(s.paths, to.value);
        }
    }
  }

  lemma PruneKeepsTree(paths: set<Path>, p: Path)
    requires IsTree(paths) && [] in paths && p in paths
    ensures var left := paths - Below(paths, p, p != []);
            IsTree(left) && [] in left && (p != [] ==> Init(p) in left)
  {
    var left := paths - Below(paths, p, p != []);
    forall q | q in left && q != []
      ensures Init(q) in left
    {
      assert q == Init(q) + [Last(q)];
    }
  }
}
