/**
 The registry: directory entries with child maps and parent pointers, and a current directory.
 `nodes` is the ghost view of the tree, from paths to the live entries.
 */
module Registry {
  import opened Bytes
  import opened RegistryPath
  import opened RegistrySpec

  class DirEntry {
    // m_mapChilds, m_pParent and m_strName
    var children: map<string, DirEntry>
    var parent: DirEntry?
    var name: string

    constructor ()
      ensures children == map[] && parent == null
    {
      children := map[];
      parent := null;
      name := "";
    }

    function GetChild(n: string): (c: DirEntry?)
      reads this
      ensures c != null <==> |n| <= REG_MAX_NAME && n in children
      ensures c != null ==> c == children[n]
    {
      if |n| > REG_MAX_NAME || n !in children then null else children[n]
    }
  }

  type Tree = map<Path, DirEntry>

  /** The fields of an entry, as a value. */
  datatype Fields = Fields(children: map<string, DirEntry>, parent: DirEntry?, name: string)

  type View = map<Path, Fields>

  ghost function ViewOf(nodes: Tree): (v: View)
    reads nodes.Values
    ensures v.Keys == nodes.Keys
  {
    map p | p in nodes :: Fields(nodes[p].children, nodes[p].parent, nodes[p].name)
  }

  /** An entry, its children and its parent agree with the tree. */
  ghost predicate NodeOk(nodes: Tree, v: View, p: Path)
    requires p in nodes && v.Keys == nodes.Keys
  {
    && (forall n :: n in v[p].children ==>
          |n| <= REG_MAX_NAME && p + [n] in nodes && nodes[p + [n]] == v[p].children[n])
    && (p != [] ==>
          && Init(p) in nodes && v[p].parent == nodes[Init(p)]
          && v[p].name == Last(p) && Last(p) in v[Init(p)].children)
  }

  ghost predicate ViewOk(nodes: Tree, v: View, root: DirEntry) {
    && v.Keys == nodes.Keys
    && [] in nodes && nodes[[]] == root && v[[]].parent == null
    && (forall p, q :: p in nodes && q in nodes && nodes[p] == nodes[q] ==> p == q)
    && (forall p :: p in nodes ==> NodeOk(nodes, v, p))
  }

  /** The live entries form one finite tree under the root; distinct paths are distinct entries. */
  ghost predicate TreeOk(nodes: Tree, root: DirEntry)
    reads nodes.Values
  {
    ViewOk(nodes, ViewOf(nodes), root)
  }

  /** A child is in the map exactly when its path is in the tree. */
  lemma ChildInTree(nodes: Tree, root: DirEntry, p: Path, n: string)
    requires TreeOk(nodes, root) && p in nodes
    ensures n in nodes[p].children <==> p + [n] in nodes
    ensures var c := nodes[p].GetChild(n);
            if p + [n] in nodes then c == nodes[p + [n]] else c == null
  {
    if p + [n] in nodes {
      assert NodeOk(nodes, ViewOf(nodes), p + [n]) && Init(p + [n]) == p && Last(p + [n]) == n;
    }
    assert NodeOk(nodes, ViewOf(nodes), p);
  }

  lemma TreeClosed(nodes: Tree, root: DirEntry)
    requires TreeOk(nodes, root)
    ensures IsTree(nodes.Keys)
  {
    forall p | p in nodes && p != []
      ensures Init(p) in nodes && |Last(p)| <= REG_MAX_NAME
    {
      var v := ViewOf(nodes);
      assert NodeOk(nodes, v, p) && NodeOk(nodes, v, Init(p));
    }
  }

  /** The fields after `e` is hung under `p` by the name `n`. */
  ghost function AddView(v: View, p: Path, n: string, parent: DirEntry, e: DirEntry): View
    requires p in v
  {
    v[p := v[p].(children := v[p].children[n := e])][p + [n] := Fields(map[], parent, n)]
  }

  lemma NodeAfterAdd(nodes: Tree, v: View, p: Path, n: string, e: DirEntry, r: Path)
    requires v.Keys == nodes.Keys && p in nodes && p + [n] !in nodes && |n| <= REG_MAX_NAME
    requires r in nodes && NodeOk(nodes, v, r)
    ensures NodeOk(nodes[p + [n] := e], AddView(v, p, n, nodes[p], e), r)
  {
    var nodes1, v1 := nodes[p + [n] := e], AddView(v, p, n, nodes[p], e);
    forall m | m in v1[r].children
      ensures |m| <= REG_MAX_NAME && r + [m] in nodes1 && nodes1[r + [m]] == v1[r].children[m]
    {
      if r == p && m == n {
      } else {
        assert m in v[r].children;
      }
    }
  }

  /** Adding a leaf to a good tree. */
  lemma LeafAdded(nodes: Tree, v: View, root: DirEntry, p: Path, n: string, e: DirEntry)
    requires ViewOk(nodes, v, root) && p in nodes && p + [n] !in nodes && |n| <= REG_MAX_NAME
    requires e !in nodes.Values
    ensures ViewOk(nodes[p + [n] := e], AddView(v, p, n, nodes[p], e), root)
  {
    hide NodeOk;
    var nodes1, v1 := nodes[p + [n] := e], AddView(v, p, n, nodes[p], e);
    forall r | r in nodes1
      ensures NodeOk(nodes1, v1, r)
    {
      if r == p + [n] {
        NewNode(nodes, v, p, n, e);
      } else {
        NodeAfterAdd(nodes, v, p, n, e, r);
      }
    }
  }

  lemma NewNode(nodes: Tree, v: View, p: Path, n: string, e: DirEntry)
    requires v.Keys == nodes.Keys && p in nodes && p + [n] !in nodes
    ensures NodeOk(nodes[p + [n] := e], AddView(v, p, n, nodes[p], e), p + [n])
  {
    assert Init(p + [n]) == p && Last(p + [n]) == n;
  }

  /** The fields after the leaf `n` is taken from `p`. */
  ghost function CutView(v: View, p: Path, n: string): View
    requires p in v
  {
    v[p := v[p].(children := v[p].children - {n})] - {p + [n]}
  }

  lemma NodeAfterCut(nodes: Tree, v: View, p: Path, n: string, r: Path)
    requires v.Keys == nodes.Keys && p in nodes && p + [n] in nodes && v[p + [n]].children == map[]
    requires r in nodes && r != p + [n] && NodeOk(nodes, v, r)
    ensures NodeOk(nodes - {p + [n]}, CutView(v, p, n), r)
  {
    var nodes1, v1 := nodes - {p + [n]}, CutView(v, p, n);
    forall m | m in v1[r].children
      ensures |m| <= REG_MAX_NAME && r + [m] in nodes1 && nodes1[r + [m]] == v1[r].children[m]
    {
      assert m in v[r].children;
      AppendInjective(p, n, r, m);
    }
    if r != [] {
      assert r == Init(r) + [Last(r)];
    }
  }

  /** Removing a leaf from a good tree. */
  lemma LeafRemoved(nodes: Tree, v: View, root: DirEntry, p: Path, n: string)
    requires ViewOk(nodes, v, root) && p in nodes && p + [n] in nodes && v[p + [n]].children == map[]
    ensures ViewOk(nodes - {p + [n]}, CutView(v, p, n), root)
  {
    hide NodeOk;
    var nodes1, v1 := nodes - {p + [n]}, CutView(v, p, n);
    forall r | r in nodes1
      ensures NodeOk(nodes1, v1, r)
    {
      NodeAfterCut(nodes, v, p, n, r);
    }
  }

  lemma RootInTree(nodes: Tree, root: DirEntry)
    requires TreeOk(nodes, root)
    ensures [] in nodes && nodes[[]] == root
  {
  }

  lemma ParentInTree(nodes: Tree, root: DirEntry, p: Path)
    requires TreeOk(nodes, root) && p in nodes
    ensures p == [] ==> nodes[p] == root && root.parent == null
    ensures p != [] ==>
              Init(p) in nodes && nodes[p].parent == nodes[Init(p)] && nodes[p].name == Last(p)
  {
    assert NodeOk(nodes, ViewOf(nodes), p);
  }

  lemma Distinct(nodes: Tree, root: DirEntry)
    requires TreeOk(nodes, root)
    ensures forall p, q :: p in nodes && q in nodes && nodes[p] == nodes[q] ==> p == q
  {
  }

  /** The live entries at and below a path. */
  ghost function Subtree(nodes: Tree, p: Path): set<DirEntry> {
    set q | q in nodes && p <= q :: nodes[q]
  }

  /** The tree without the entries under `p`, and without `p` itself when `self` is set. */
  ghost function Prune(nodes: Tree, p: Path, self: bool): Tree {
    map q | q in nodes && !Under(q, p, self) :: nodes[q]
  }

  /** A tree with all the entries of `low`, and none that `high` does not have. */
  ghost predicate Between(low: Tree, nodes: Tree, high: Tree) {
    && (forall q :: q in low ==> q in nodes && nodes[q] == low[q])
    && (forall q :: q in nodes ==> q in high && high[q] == nodes[q])
  }

  lemma PruneWithin(was: Tree, nodes: Tree, p: Path, n: string)
    requires Between(Prune(was, p, false), nodes, was)
    ensures Between(Prune(was, p, false), Prune(nodes, p + [n], true), was)
    ensures Subtree(nodes, p + [n]) <= Subtree(was, p)
    ensures Below(nodes.Keys, p + [n], true) <= Below(was.Keys, p, false)
  {
  }

  lemma PrunedAll(was: Tree, nodes: Tree, p: Path)
    requires Between(Prune(was, p, false), nodes, was) && Below(nodes.Keys, p, false) == {}
    ensures nodes == Prune(was, p, false)
  {
    forall q | q in nodes
      ensures !Under(q, p, false)
    {
      assert q !in Below(nodes.Keys, p, false);
    }
  }

  lemma PruneSelf(nodes: Tree, p: Path)
    requires p in nodes
    ensures Prune(nodes, p, false) - {p} == Prune(nodes, p, true)
    ensures Below(nodes.Keys, p, false) < Below(nodes.Keys, p, true)
  {
    assert p in Below(nodes.Keys, p, true);
  }

  lemma PruneTwice(nodes: Tree, p: Path)
    ensures Prune(Prune(nodes, p, false), p, true) == Prune(nodes, p, true)
  {
  }

  /** Where nothing stands there is nothing to prune. */
  lemma PruneAbsent(nodes: Tree, root: DirEntry, p: Path)
    requires TreeOk(nodes, root) && p !in nodes
    ensures Prune(nodes, p, true) == nodes
  {
    hide TreeOk;
    TreeClosed(nodes, root);
    forall q | q in nodes
      ensures !Under(q, p, true)
    {
      if p <= q {
        assert q[..|p|] == p;
        PrefixInTree(nodes.Keys, q, |p|);
      }
    }
  }

  /** The tree `was` and the first `k` directories of a chain under `base`. */
  ghost predicate Grown(was: Tree, nodes: Tree, base: Path, rel: Path, k: nat)
    requires k <= |rel|
  {
    && nodes.Keys == was.Keys + Chain(base, rel, k)
    && forall q :: q in was ==> q in nodes && nodes[q] == was[q]
  }

  lemma GrownKeeps(was: Tree, nodes: Tree, base: Path, rel: Path, k: nat)
    requires k <= |rel| && Grown(was, nodes, base, rel, k)
    ensures nodes.Keys == was.Keys + Chain(base, rel, k)
    ensures forall q :: q in was ==> q in nodes && nodes[q] == was[q]
  {
  }

  lemma GrownStart(nodes: Tree, base: Path, rel: Path)
    ensures Grown(nodes, nodes, base, rel, 0)
    ensures base + rel[..0] == base && rel[..|rel|] == rel
  {
  }

  /** A chain whose last directory was already there adds nothing. */
  lemma GrownNothing(was: Tree, nodes: Tree, base: Path, rel: Path, k: nat)
    requires k <= |rel| && Grown(was, nodes, base, rel, k)
    requires IsTree(was.Keys) && base + rel[..k] in was
    ensures nodes == was
  {
    ChainInTree(was.Keys, base, rel, k);
  }

  lemma GrownStep(was: Tree, nodes: Tree, base: Path, rel: Path, k: nat, e: DirEntry)
    requires k < |rel| && Grown(was, nodes, base, rel, k)
    requires base + rel[..k + 1] in nodes ==> nodes[base + rel[..k + 1]] == e
    ensures Grown(was, nodes[base + rel[..k + 1] := e], base, rel, k + 1)
    ensures base + rel[..k + 1] == base + rel[..k] + [rel[k]]
  {
    ChainStep(base, rel, k);
  }

  lemma GrownPruned(was: Tree, nodes: Tree, base: Path, rel: Path, k: nat)
    requires 0 < k <= |rel| && Grown(was, nodes, base, rel, k)
    requires IsTree(was.Keys) && base + rel[..k] !in was
    ensures Grown(was, Prune(nodes, base + rel[..k], true), base, rel, k - 1)
  {
    var top := base + rel[..k];
    ChainStep(base, rel, k - 1);
    forall q | q in was
      ensures !Under(q, top, true)
    {
      if top <= q {
        assert q[..|top|] == top;
        PrefixInTree(was.Keys, q, |top|);
      }
    }
  }

  lemma OneLess<V>(m: map<string, V>, n: string)
    requires n in m
    ensures |m - {n}| < |m|
  {
    assert (m - {n}).Keys == m.Keys - {n};
    assert |(m - {n}).Keys| == |m - {n}| && |m.Keys| == |m|;
  }

  /** Nothing hangs below an entry without children. */
  lemma NothingBelow(nodes: Tree, root: DirEntry, p: Path)
    requires TreeOk(nodes, root) && p in nodes && nodes[p].children == map[]
    ensures Below(nodes.Keys, p, false) == {}
  {
    hide TreeOk, ViewOk, NodeOk;
    TreeClosed(nodes, root);
    forall q | q in nodes && p < q
      ensures false
    {
      PrefixInTree(nodes.Keys, q, |p| + 1);
      assert q[..|p| + 1] == p + [q[|p|]];
      ChildInTree(nodes, root, p, q[|p|]);
    }
  }

  class Registry {
    const root: DirEntry
    var cur: DirEntry
    ghost var nodes: Tree
    ghost var curPath: Path

    /** The entries form a tree, and the current directory is one of them. */
    ghost predicate Valid()
      reads this, nodes.Values
    {
      TreeOk(nodes, root) && curPath in nodes && nodes[curPath] == cur
    }

    constructor ()
      ensures Valid() && curPath == [] && nodes.Keys == {[]} && fresh(nodes.Values)
    {
      var r := new DirEntry();
      root, cur := r, r;
      nodes, curPath := map[[] := r], [];
    }

    /** One component of a path, from the entry reached so far; null when there is no such entry. */
    method Step(dir: DirEntry, ghost at: Path, c: string) returns (next: DirEntry?, ghost to: Path)
      requires Valid() && at in nodes && nodes[at] == dir
      ensures var s := StepTo(nodes.Keys, at, c);
              if next == null then s.None? else s == Some(to) && to in nodes && nodes[to] == next
    {
      to := at;
      if c == "." {
        next := dir;
      } else if c == ".." {
        if dir == root {
          return null, to;
        }
        assert NodeOk(nodes, ViewOf(nodes), at);
        to := Init(at);
        next := dir.parent;
      } else if c == "/" {
        to := [];
        next := root;
      } else {
        ChildInTree(nodes, root, at, c);
        to := at + [c];
        next := dir.GetChild(c);
      }
    }

    /** The loop of ChangeDir: component after component, stopping where there is no entry. */
    method Walk(comps: seq<string>) returns (dir: DirEntry?, ghost at: Path)
      requires Valid()
      ensures var to := Resolve(nodes.Keys, curPath, comps);
              if dir == null then to.None? else to == Some(at) && at in nodes && nodes[at] == dir
    {
      hide TreeOk, ViewOk, NodeOk, StepTo, Resolve;
      dir, at := cur, curPath;
      var i := 0;
      while i < |comps|
        invariant 0 <= i <= |comps|
        invariant dir != null && at in nodes && nodes[at] == dir
        invariant Resolve(nodes.Keys, at, comps[i..]) == Resolve(nodes.Keys, curPath, comps)
      {
        ResolveStep(nodes.Keys, at, comps, i);
        dir, at := Step(dir, at, comps[i]);
        if dir == null {
          return;
        }
        i := i + 1;
      }
      ResolveStep(nodes.Keys, at, comps, i);
    }

    /** The current directory moves along the path, or stays where it is on any error. */
    method ChangeDir(path: string) returns (ret: int)
      requires Valid()
      modifies this`cur, this`curPath
      ensures Valid()
      ensures var to := Resolve(nodes.Keys, old(curPath), Components(path));
              && ret == (if !ValidPath(path) then E_INVAL else if to.None? then E_NOENT else 0)
              && curPath == (if ret == 0 then to.value else old(curPath))
    {
      hide TreeOk, ViewOk, NodeOk, Resolve, Components;
      if |path| > REG_MAX_PATH {
        return E_INVAL;
      }
      var comps;
      ret, comps := Namei(path);
      if ret == 0 {
        var dir;
        ghost var at;
        dir, at := Walk(comps);
        if dir == null {
          return E_NOENT;
        }
        cur := dir;
        curPath := at;
      }
    }

    /** A new entry under `e`; the rest of the tree keeps its entries. */
    method AddChild(e: DirEntry, ghost p: Path, n: string) returns (ret: int)
      requires TreeOk(nodes, root) && p in nodes && nodes[p] == e
      modifies e, this`nodes
      ensures TreeOk(nodes, root)
      ensures ret == if |n| > REG_MAX_NAME then E_INVAL else if p + [n] in old(nodes) then E_NOENT else 0
      ensures ret != 0 ==> nodes == old(nodes)
      ensures ret == 0 ==> p + [n] in nodes && fresh(nodes[p + [n]]) && nodes == old(nodes)[p + [n] := nodes[p + [n]]]
    {
      hide TreeOk, ViewOk, NodeOk;
      if |n| > REG_MAX_NAME {
        return E_INVAL;
      }
      ChildInTree(nodes, root, p, n);
      if n in e.children {
        return E_NOENT;
      }
      var ent := new DirEntry();
      ent.name := n;
      HangLeaf(e, p, ent, n);
      return 0;
    }

    method HangLeaf(e: DirEntry, ghost p: Path, ent: DirEntry, n: string)
      requires TreeOk(nodes, root) && p in nodes && nodes[p] == e
      requires p + [n] !in nodes && |n| <= REG_MAX_NAME && ent !in nodes.Values
      requires ent.children == map[] && ent.name == n
      modifies e, ent, this`nodes
      ensures nodes == old(nodes)[p + [n] := ent] && TreeOk(nodes, root)
    {
      hide ViewOk, NodeOk;
      ghost var was, v := nodes, ViewOf(nodes);
      LeafAdded(was, v, root, p, n, ent);
      Distinct(was, root);
      ent.parent := e;
      e.children := e.children[n := ent];
      nodes := nodes[p + [n] := ent];
      forall q | q in nodes
        ensures ViewOf(nodes)[q] == AddView(v, p, n, was[p], ent)[q]
      {
        assert q in was ==> nodes[q] != ent && (q != p ==> nodes[q] != e);
      }
      assert ViewOf(nodes) == AddView(v, p, n, was[p], ent);
    }

    /** The recursive destruction of everything under `e`; only the subtree is touched. */
    method RemoveAllChildren(e: DirEntry, ghost p: Path)
      requires Valid() && p in nodes && nodes[p] == e && !(p < curPath)
      modifies Subtree(nodes, p), this`nodes
      ensures Valid() && e.children == map[]
      ensures nodes == Prune(old(nodes), p, false)
      decreases Below(nodes.Keys, p, false), 1
    {
      hide TreeOk, ViewOk, NodeOk;
      while e.children != map[]
        invariant Valid() && p in nodes && nodes[p] == e
        invariant Between(Prune(old(nodes), p, false), nodes, old(nodes))
        decreases |e.children|
      {
        var n :| n in e.children;
        ChildInTree(nodes, root, p, n);
        PruneWithin(old(nodes), nodes, p, n);
        ghost var before := e.children;
        var _ := RemoveChild(e, p, n);
        assert |e.children| < |before| by {
          OneLess(before, n);
        }
      }
      NothingBelow(nodes, root, p);
      PrunedAll(old(nodes), nodes, p);
    }

    method RemoveChild(e: DirEntry, ghost p: Path, n: string) returns (ret: int)
      requires Valid() && p in nodes && nodes[p] == e && !(p + [n] <= curPath)
      modifies e, Subtree(nodes, p + [n]), this`nodes
      ensures Valid()
      ensures ret == if |n| > REG_MAX_NAME then E_INVAL else if p + [n] !in old(nodes) then E_NOENT else 0
      ensures nodes == Prune(old(nodes), p + [n], true)
      ensures e.children == old(e.children - {n})
      decreases Below(nodes.Keys, p + [n], true), 0
    {
      hide TreeOk, ViewOk, NodeOk;
      ChildInTree(nodes, root, p, n);
      if p + [n] !in nodes {
        PruneAbsent(nodes, root, p + [n]);
      }
      if |n| > REG_MAX_NAME {
        TreeClosed(nodes, root);
        return E_INVAL;
      }
      if n !in e.children {
        return E_NOENT;
      }
      var child := e.children[n];
      Distinct(nodes, root);
      PruneSelf(nodes, p + [n]);
      RemoveAllChildren(child, p + [n]);
      DropLeaf(e, p, child, n);
      return 0;
    }

    /** The end of a childless entry: its fields go, and so does its place in the parent's map. */
    method DropLeaf(e: DirEntry, ghost p: Path, child: DirEntry, n: string)
      requires TreeOk(nodes, root) && p in nodes && nodes[p] == e
      requires p + [n] in nodes && nodes[p + [n]] == child && child.children == map[]
      modifies e, child, this`nodes
      ensures nodes == old(nodes) - {p + [n]} && TreeOk(nodes, root)
      ensures e.children == old(e.children - {n})
    {
      hide ViewOk, NodeOk;
      ghost var v := ViewOf(nodes);
      LeafRemoved(nodes, v, root, p, n);
      Distinct(nodes, root);
      child.parent := null;
      child.name := "";
      e.children := e.children - {n};
      nodes := nodes - {p + [n]};
      forall q | q in nodes
        ensures ViewOf(nodes)[q] == CutView(v, p, n)[q]
      {
        assert nodes[q] != child && (q != p ==> nodes[q] != e);
      }
      assert ViewOf(nodes) == CutView(v, p, n);
    }

    /** Whether every component of the path is an entry; "." and ".." are plain names here. */
    method ExistingDir(path: string) returns (ret: int)
      requires Valid()
      ensures ret == if !ValidPath(path) then E_INVAL
                     else if Target(curPath, Components(path)) in nodes then 0 else E_NOENT
    {
      hide TreeOk, ViewOk, NodeOk, Components, IsTree;
      if |path| > REG_MAX_PATH || path == "" {
        return E_INVAL;
      }
      var comps;
      ret, comps := Namei(path);
      ComponentsAreComponents(path);
      var dir, i := cur, 0;
      ghost var base := curPath;
      if comps[0] == "/" {
        dir, base, i := root, [], 1;
        RootInTree(nodes, root);
      }
      ghost var first := i;
      TreeClosed(nodes, root);
      assert base + comps[first..i] == base;
      assert base + comps[first..|comps|] == Target(curPath, comps);
      while i < |comps|
        invariant first <= i <= |comps|
        invariant base + comps[first..i] in nodes && nodes[base + comps[first..i]] == dir
      {
        ghost var at := base + comps[first..i];
        assert base + comps[first..i + 1] == at + [comps[i]];
        ChildInTree(nodes, root, at, comps[i]);
        var child := dir.GetChild(comps[i]);
        if child == null {
          NoDescendant(nodes.Keys, at + [comps[i]], base + comps[first..|comps|]);
          return E_NOENT;
        }
        dir := child;
        i := i + 1;
      }
      return 0;
    }

    /** The directories of `rel` that are missing below `start`, one by one, up to a name that is too long. */
    method MakeMissing(start: DirEntry, ghost base: Path, rel: seq<string>)
      returns (ret: int, entry: DirEntry, parent: DirEntry, rollback: DirEntry?, ghost k: nat, ghost r: nat)
      requires Valid() && base in nodes && nodes[base] == start
      modifies nodes.Values, this`nodes
      ensures Valid() && k <= |rel| && Grown(old(nodes), nodes, base, rel, k)
      ensures forall q :: q in nodes && q !in old(nodes) ==> fresh(nodes[q])
      ensures ret == if NamesFit(rel) then 0 else E_INVAL
      ensures ret == 0 ==> k == |rel| && base + rel in nodes && nodes[base + rel] == entry
      ensures ret != 0 ==>
                && r <= k && base + rel[..k] in nodes && nodes[base + rel[..k]] == parent
                && base + rel[..r] in old(nodes) && rollback == nodes[base + rel[..r]]
                && Missing(old(nodes).Keys, base, rel, r, k)
    {
      hide TreeOk, ViewOk, NodeOk, Grown, Chain, IsTree, Missing, NamesFit;
      ghost var was := nodes;
      GrownStart(nodes, base, rel);
      TreeClosed(nodes, root);
      entry, parent, rollback := start, start, null;
      k, r, ret := 0, 0, 0;
      var i := 0;
      NamesFitNone(rel);
      while i < |rel|
        invariant 0 <= i <= |rel| && k == i && ret == 0
        invariant Valid() && Grown(was, nodes, base, rel, i)
        invariant base + rel[..i] in nodes && nodes[base + rel[..i]] == entry
        invariant forall q :: q in nodes && q !in was ==> fresh(nodes[q])
        invariant NamesFit(rel[..i])
        invariant rollback == null ==> nodes == was
        invariant rollback != null ==>
                    && r < i && base + rel[..r] in was && rollback == was[base + rel[..r]]
                    && Missing(was.Keys, base, rel, r, i)
      {
        ghost var at := base + rel[..i];
        ChainStep(base, rel, i);
        GrownKeeps(was, nodes, base, rel, i);
        ChildInTree(nodes, root, at, rel[i]);
        NamesFitStep(rel, i);
        if rollback != null {
          NothingFurther(was.Keys, base, rel, r, i);
        }
        ghost var before := nodes;
        parent := entry;
        var child := entry.GetChild(rel[i]);
        if child == null {
          if rollback == null {
            rollback, r := parent, i;
            MissingNone(was.Keys, base, rel, i);
          }
          ret := AddChild(parent, at, rel[i]);
          if ret < 0 {
            return;
          }
          ChildInTree(nodes, root, at, rel[i]);
          child := parent.GetChild(rel[i]);
          if child == null {
            // -EFAULT in the source: never reached
            assert false;
          }
        }
        entry := child;
        GrownStep(was, before, base, rel, i, entry);
        if rollback != null {
          MissingStep(was.Keys, base, rel, r, i);
          assert Missing(was.Keys, base, rel, r, i + 1);
        }
        assert nodes == before[at + [rel[i]] := entry];
        i, k := i + 1, k + 1;
      }
    }

    /** The undo loop: from the last directory made, up to where the making began. */
    method RollBack(parent: DirEntry, rollback: DirEntry, ghost was: Tree,
                    ghost base: Path, ghost rel: Path, ghost k: nat, ghost r: nat)
      requires Valid() && r <= k <= |rel| && Grown(was, nodes, base, rel, k)
      requires IsTree(was.Keys) && curPath in was
      requires base + rel[..k] in nodes && nodes[base + rel[..k]] == parent
      requires base + rel[..r] in was && nodes[base + rel[..r]] == rollback
      requires Missing(was.Keys, base, rel, r, k)
      modifies nodes.Values, this`nodes
      ensures Valid() && nodes == was
    {
      hide TreeOk, ViewOk, NodeOk, Grown, Chain, IsTree;
      var leaf := parent;
      ghost var m := k;
      GrownKeeps(was, nodes, base, rel, k);
      while rollback != leaf
        invariant r <= m <= k && Valid() && Grown(was, nodes, base, rel, m)
        invariant base + rel[..m] in nodes && nodes[base + rel[..m]] == leaf
        invariant nodes.Values <= old(nodes.Values) && was[base + rel[..r]] == rollback
        decreases m
      {
        ghost var p := base + rel[..m];
        GrownKeeps(was, nodes, base, rel, m);
        assert r < m;
        assert Init(p) == base + rel[..m - 1] && Last(p) == rel[m - 1];
        ParentInTree(nodes, root, p);
        var name := leaf.name;
        var up := leaf.parent;
        assert p == Init(p) + [name] && up != null;
        if up != null {
          if p <= curPath {
            NoDescendant(was.Keys, p, curPath);
          }
          GrownPruned(was, nodes, base, rel, m);
          var _ := RemoveChild(up, Init(p), name);
          leaf := up;
        }
        m := m - 1;
      }
      Distinct(nodes, root);
      GrownKeeps(was, nodes, base, rel, m);
      GrownNothing(was, nodes, base, rel, m);
    }

    /**
     Makes the missing directories of a path and moves there. It fails exactly when the path is
     invalid or one of its names is too long, and then the tree and the current directory are
     what they were.
     */
    method MakeDir(path: string) returns (ret: int)
      requires Valid()
      modifies this, nodes.Values
      ensures Valid()
      ensures var base, rel := Base(old(curPath), Components(path)), Rel(Components(path));
              && ret == (if ValidPath(path) && NamesFit(rel) then 0 else E_INVAL)
              && (ret != 0 ==> nodes == old(nodes) && curPath == old(curPath))
              && (ret == 0 ==> curPath == base + rel && Grown(old(nodes), nodes, base, rel, |rel|))
    {
      hide TreeOk, ViewOk, NodeOk, Components, Grown, IsTree, NamesFit;
      if path == "" || |path| > REG_MAX_PATH {
        return E_INVAL;
      }
      var comps;
      ret, comps := Namei(path);
      ComponentsAreComponents(path);
      RootInTree(nodes, root);
      TreeClosed(nodes, root);
      var start, rel := cur, comps;
      ghost var was, base := nodes, curPath;
      if comps[0] == "/" {
        start, rel, base := root, comps[1..], [];
      }
      var entry, parent, rollback;
      ghost var k, r;
      ret, entry, parent, rollback, k, r := MakeMissing(start, base, rel);
      if ret < 0 {
        GrownKeeps(was, nodes, base, rel, k);
        RollBack(parent, rollback, was, base, rel, k, r);
      } else {
        cur := entry;
        curPath := base + rel;
      }
    }

    /** Removes a directory with everything under it and lands on its parent; the root only empties. */
    method RemoveDir(path: string) returns (ret: int)
      requires Valid()
      modifies this, nodes.Values
      ensures Valid()
      ensures var to := Resolve(old(nodes.Keys), old(curPath), Components(path));
              && ret == (if !ValidPath(path) then E_INVAL else if to.None? then E_NOENT else 0)
              && (ret != 0 ==> nodes == old(nodes) && curPath == old(curPath))
              && (ret == 0 ==> nodes == Prune(old(nodes), to.value, to.value != []))
              && (ret == 0 ==> curPath == if to.value == [] then [] else Init(to.value))
    {
      hide TreeOk, ViewOk, NodeOk, Components, Resolve, StepTo;
      ret := ChangeDir(path);
      if ret < 0 {
        return;
      }
      ghost var to, was := curPath, nodes;
      RemoveAllChildren(cur, curPath);
      ParentInTree(nodes, root, curPath);
      var parent := cur.parent;
      if parent != null {
        var name := cur.name;
        StepUp(nodes.Keys, curPath);
        var _ := ChangeDir("..");
        assert to == curPath + [name];
        var _ := RemoveChild(parent, curPath, name);
        PruneTwice(was, to);
      }
    }

    /** Any operation does to the entries what `Apply` does to their paths. */
    method Perform(op: Op) returns (ret: int)
      requires Valid()
      modifies this, nodes.Values
      ensures Valid()
      ensures State(nodes.Keys, curPath) == Apply(State(old(nodes.Keys), old(curPath)), op)
      ensures ret == Answer(State(old(nodes.Keys), old(curPath)), op)
      ensures ret != 0 ==> nodes == old(nodes) && curPath == old(curPath)
    {
      hide TreeOk, ViewOk, NodeOk, Components, Resolve, NamesFit;
      match op
      case Change(path) => ret := ChangeDir(path);
      case Make(path) => ret := MakeDir(path);
      case Remove(path) =>
        ret := RemoveDir(path);
    }
  }
}
