/**
 Intrusive reference counting: objects that count their references and delete themselves, and the
 smart pointers that hold them. A process is all the pointers and all the objects made so far.
 */
module SmartPtr {
  import opened Bytes
  import Objects

  type Clsid = nat

  /** A class, as the target of a dynamic_cast. */
  type TypeId = nat

  const TYPE_OBJBASE: TypeId := 0
  const TYPE_BUFFER: TypeId := 1
  const TYPE_CONFIG: TypeId := 2

  // ---- Counting the holders ----

  type View = map<CAutoPtr, CObjBase?>

  /** The pointers that hold an object. */
  ghost function Holders(v: View, o: CObjBase): set<CAutoPtr> {
    set p | p in v && v[p] == o
  }

  /** Pointing one pointer elsewhere moves it from the holders of one object to those of the other. */
  lemma HoldersMove(v: View, p: CAutoPtr, to: CObjBase?, o: CObjBase)
    requires p in v
    ensures |Holders(v[p := to], o)| ==
            |Holders(v, o)| - (if v[p] == o then 1 else 0) + (if to == o then 1 else 0)
  {
    var was, now := Holders(v, o), Holders(v[p := to], o);
    if to == o {
      assert now == was + {p};
    } else {
      assert now == was - {p};
    }
  }

  /** A pointer that is new, or gone, and empty, is no holder. */
  lemma HoldersSame(v: View, w: View, o: CObjBase)
    requires forall p :: p in v && v[p] != null ==> p in w && w[p] == v[p]
    requires forall p :: p in w && w[p] != null ==> p in v && w[p] == v[p]
    ensures Holders(v, o) == Holders(w, o)
  {
    assert forall p :: p in Holders(v, o) <==> p in Holders(w, o);
  }

  lemma NoHolders(v: View, o: CObjBase)
    requires forall p :: p in v ==> v[p] != o
    ensures |Holders(v, o)| == 0
  {
    assert Holders(v, o) == {};
  }

  // ---- Objects ----

  class CObjBase {
    const id: nat
    const clsid: Clsid
    // the classes a dynamic_cast of this object succeeds for
    const types: set<TypeId>
    // m_atmRefCount
    var refs: int
    ghost var deletes: nat

    /** An object is born with one reference. */
    constructor (proc: Process, c: Clsid, ts: set<TypeId>)
      modifies proc`objId
      ensures refs == 1 && deletes == 0 && clsid == c && types == ts
      ensures id == proc.objId == old(proc.objId) + 1
    {
      id := proc.objId + 1;
      clsid := c;
      types := ts;
      refs := 1;
      deletes := 0;
      new;
      proc.objId := proc.objId + 1;
    }

    method AddRef() returns (n: int)
      modifies this`refs
      ensures n == refs == old(refs) + 1
    {
      refs := refs + 1;
      return refs;
    }

    method DecRef() returns (n: int)
      modifies this`refs
      ensures n == refs == old(refs) - 1
    {
      refs := refs - 1;
      return refs;
    }

    /** The object deletes itself when the last reference goes. */
    method Release() returns (n: int)
      modifies this
      ensures n == refs == old(refs) - 1
      ensures deletes == old(deletes) + if refs == 0 then 1 else 0
    {
      refs := refs - 1;
      n := refs;
      if n == 0 {
        deletes := deletes + 1;
      }
    }
  }

  // ---- Creation ----

  /** What a class factory has for a class: a maker, or one that makes nothing. */
  datatype Maker = Makes(types: set<TypeId>) | MakesNothing

  class ClassFactory {
    const makers: map<Clsid, Maker>

    constructor (ms: map<Clsid, Maker>)
      ensures makers == ms
    {
      makers := ms;
    }

    /** The maker gives back an object without a reference, and the factory takes one for its caller. */
    method CreateInstance(proc: Process, c: Clsid) returns (ret: int, obj: CObjBase?)
      modifies proc`objId
      ensures ret == 0 <==> c in makers && makers[c].Makes?
      ensures ret == 0 ==> obj != null && Newborn(proc, old(proc.objId), obj) && fresh(obj)
      ensures ret == 0 ==> obj.clsid == c && obj.types == makers[c].types
      ensures ret != 0 ==> obj == null && proc.objId == old(proc.objId)
                           && ret == if c in makers then E_FAULT else E_NOENT
    {
      ret, obj := E_NOENT, null;
      if c in makers {
        ret := 0;
        obj := Make(proc, c, makers[c]);
        if obj != null {
          var _ := obj.AddRef();
        } else {
          ret := E_FAULT;
        }
      }
    }

    method Make(proc: Process, c: Clsid, m: Maker) returns (obj: CObjBase?)
      modifies proc`objId
      ensures m == MakesNothing ==> obj == null && proc.objId == old(proc.objId)
      ensures m.Makes? ==> obj != null && fresh(obj) && obj.refs == 0 && obj.deletes == 0
                           && obj.clsid == c && obj.types == m.types
                           && obj.id == proc.objId == old(proc.objId) + 1
    {
      obj := null;
      if m.Makes? {
        obj := new CObjBase(proc, c, m.types);
        var _ := obj.DecRef();
      }
    }
  }

  /** The classes that are made without a factory, and what they can be cast to. */
  predicate IsFast(c: Clsid, hasCfg: bool) {
    (c == Objects.CLSID_BUFFER && !hasCfg) || c == Objects.CLSID_CONFIG
  }

  function FastTypes(c: Clsid): set<TypeId> {
    {TYPE_OBJBASE, if c == Objects.CLSID_BUFFER then TYPE_BUFFER else TYPE_CONFIG}
  }

  /** An object that has one reference, which no pointer holds yet. */
  ghost predicate Newborn(proc: Process, lastId: nat, obj: CObjBase)
    reads proc, obj
  {
    obj.refs == 1 && obj.deletes == 0 && obj.id == proc.objId == lastId + 1
  }

  class Process {
    // m_atmObjId, and the factories in the order they are asked
    var objId: nat
    const factories: seq<ClassFactory>
    // the pointers there are, and the objects made so far
    ghost var ptrs: set<CAutoPtr>
    ghost var objs: set<CObjBase>

    constructor (fs: seq<ClassFactory>)
      ensures Sound() && ptrs == {} && objs == {} && factories == fs
    {
      factories := fs;
      objId := 0;
      ptrs, objs := {}, {};
    }

    ghost function Pointers(): View
      reads this, ptrs
    {
      map p | p in ptrs :: p.obj
    }

    /**
     The count of every object is the number of pointers that hold it; an object is deleted once when
     nothing holds it, and otherwise not; pointers hold live objects of their own class.
     */
    ghost predicate Sound()
      reads this, ptrs, objs
    {
      && (forall p :: p in ptrs && p.obj != null ==> p.obj in objs && p.target in p.obj.types)
      && (forall o :: o in objs ==> Counted(Pointers(), o) && o.id <= objId)
      && forall o, q :: o in objs && q in objs && o.id == q.id ==> o == q
    }

    method CreateObjFast(c: Clsid, hasCfg: bool) returns (ret: int, obj: CObjBase?)
      modifies this`objId
      ensures ret == if IsFast(c, hasCfg) then 0 else E_NOTSUP
      ensures ret == 0 ==> obj != null && Newborn(this, old(objId), obj) && fresh(obj)
      ensures ret == 0 ==> obj.clsid == c && obj.types == FastTypes(c)
      ensures c == Objects.CLSID_CONFIG ==> ret == 0 && obj.types == {TYPE_OBJBASE, TYPE_CONFIG}
      ensures c == Objects.CLSID_BUFFER && !hasCfg ==> ret == 0 && obj.types == {TYPE_OBJBASE, TYPE_BUFFER}
      ensures c == Objects.CLSID_BUFFER && hasCfg ==> ret != 0
      ensures ret == 0 ==> c in {Objects.CLSID_BUFFER, Objects.CLSID_CONFIG}
      ensures ret != 0 ==> obj == null && objId == old(objId)
    {
      obj := null;
      if c == Objects.CLSID_BUFFER && !hasCfg {
        obj := new CObjBase(this, c, {TYPE_OBJBASE, TYPE_BUFFER});
      } else if c == Objects.CLSID_CONFIG {
        obj := new CObjBase(this, c, {TYPE_OBJBASE, TYPE_CONFIG});
      }
      ret := if obj != null then 0 else E_NOTSUP;
    }

    /** The factory that makes objects of a class: none before it has a maker that works. */
    predicate FirstMaker(c: Clsid, i: nat)
      requires i < |factories|
    {
      && c in factories[i].makers && factories[i].makers[c].Makes?
      && forall j :: 0 <= j < i && c in factories[j].makers ==> factories[j].makers[c] == MakesNothing
    }

    /** The factories are asked one after the other; the error of the last one is reported. */
    method CreateInstance(c: Clsid) returns (ret: int, obj: CObjBase?)
      modifies this`objId
      ensures ret == 0 <==> exists i :: 0 <= i < |factories| && FirstMaker(c, i)
      ensures ret == 0 ==> obj != null && Newborn(this, old(objId), obj) && fresh(obj) && obj.clsid == c
      ensures ret == 0 ==>
                exists i :: 0 <= i < |factories| && FirstMaker(c, i) && factories[i].makers[c].types == obj.types
      ensures ret != 0 ==> obj == null && objId == old(objId)
      ensures ret != 0 && |factories| == 0 ==> ret == E_NOTSUP
      ensures ret != 0 && |factories| > 0 ==>
                ret == if c in factories[|factories| - 1].makers then E_FAULT else E_NOENT
    {
      ret, obj := E_NOTSUP, null;
      var i := 0;
      while i < |factories|
        invariant i <= |factories| && ret != 0
        invariant ret == if i == 0 then E_NOTSUP else if c in factories[i - 1].makers then E_FAULT else E_NOENT
        invariant obj == null && objId == old(objId)
        invariant forall j :: 0 <= j < i && c in factories[j].makers ==> factories[j].makers[c] == MakesNothing
      {
        ret, obj := factories[i].CreateInstance(this, c);
        if ret == 0 {
          assert FirstMaker(c, i);
          return;
        }
        i := i + 1;
      }
    }
  }

  ghost predicate Counted(v: View, o: CObjBase)
    reads o
  {
    o.refs == |Holders(v, o)| && o.deletes == if o.refs == 0 then 1 else 0
  }

  // ---- Pointers ----

  class CAutoPtr {
    // the template parameters
    const target: TypeId
    const clsid: Clsid
    // m_pObj
    var obj: CObjBase?

    /** An empty pointer. */
    constructor (proc: Process, t: TypeId, c: Clsid)
      requires proc.Sound()
      modifies proc`ptrs
      ensures proc.Sound() && proc.ptrs == old(proc.ptrs) + {this} && fresh(this)
      ensures target == t && clsid == c && obj == null
    {
      target, clsid := t, c;
      obj := null;
      new;
      proc.ptrs := proc.ptrs + {this};
      EmptyCountsNothing(proc, old(proc.Pointers()));
    }

    /** m_pObj = o, and AddRef. */
    method Hold(proc: Process, o: CObjBase)
      requires proc.Sound() && this in proc.ptrs && obj == null
      requires o in proc.objs && o.refs > 0 && target in o.types
      modifies this`obj, o`refs
      ensures proc.Sound() && obj == o
    {
      ghost var v := proc.Pointers();
      obj := o;
      var _ := o.AddRef();
      assert proc.Pointers() == v[this := o];
      forall q | q in proc.objs ensures Counted(proc.Pointers(), q) {
        HoldersMove(v, this, o, q);
      }
    }

    /** Release, and detach. */
    method Clear(proc: Process)
      requires proc.Sound() && this in proc.ptrs
      modifies this`obj, proc.objs
      ensures proc.Sound() && obj == null
      ensures forall o :: o in proc.objs && o != old(obj) ==> unchanged(o)
    {
      if obj != null {
        ghost var v, o := proc.Pointers(), obj;
        HoldersMove(v, this, null, o);
        assert this in Holders(v, o);
        var _ := obj.Release();
        obj := null;
        assert proc.Pointers() == v[this := null];
        forall q | q in proc.objs ensures Counted(proc.Pointers(), q) {
          HoldersMove(v, this, null, q);
        }
      }
    }

    /** A pointer from a raw one that is held elsewhere. */
    constructor FromHeld(proc: Process, t: TypeId, c: Clsid, o: CObjBase)
      requires proc.Sound() && o in proc.objs && o.refs > 0 && t in o.types
      modifies proc`ptrs, o`refs
      ensures proc.Sound() && proc.ptrs == old(proc.ptrs) + {this} && fresh(this)
      ensures target == t && clsid == c && obj == o
    {
      target, clsid := t, c;
      obj := null;
      new;
      proc.ptrs := proc.ptrs + {this};
      EmptyCountsNothing(proc, old(proc.Pointers()));
      Hold(proc, o);
    }

    /** A pointer that takes over the reference of a newborn object (bAddRef is false). */
    constructor FromNew(proc: Process, t: TypeId, c: Clsid, o: CObjBase)
      requires proc.Sound() && t in o.types
      requires o !in proc.objs && o.refs == 1 && o.deletes == 0 && o.id <= proc.objId
      requires forall q :: q in proc.objs ==> q.id != o.id
      modifies proc`ptrs, proc`objs
      ensures proc.Sound() && proc.ptrs == old(proc.ptrs) + {this} && fresh(this)
      ensures proc.objs == old(proc.objs) + {o} && target == t && clsid == c && obj == o
    {
      target, clsid := t, c;
      obj := null;
      new;
      proc.ptrs := proc.ptrs + {this};
      EmptyCountsNothing(proc, old(proc.Pointers()));
      Adopt(proc, o);
    }

    /** The new object comes into the count, and this pointer holds it. */
    method Adopt(proc: Process, o: CObjBase)
      requires proc.Sound() && this in proc.ptrs && obj == null && target in o.types
      requires o !in proc.objs && o.refs == 1 && o.deletes == 0 && o.id <= proc.objId
      requires forall q :: q in proc.objs ==> q.id != o.id
      modifies this`obj, proc`objs
      ensures proc.Sound() && obj == o && proc.objs == old(proc.objs) + {o}
    {
      ghost var v := proc.Pointers();
      obj := o;
      proc.objs := proc.objs + {o};
      assert proc.Pointers() == v[this := o];
      NoHolders(v, o);
      forall q | q in proc.objs ensures Counted(proc.Pointers(), q) {
        HoldersMove(v, this, o, q);
      }
    }

    /** A copy; a cast that fails makes an empty pointer. */
    constructor Copy(proc: Process, t: TypeId, c: Clsid, rhs: CAutoPtr)
      requires proc.Sound() && rhs in proc.ptrs
      modifies proc`ptrs, proc.objs
      ensures proc.Sound() && proc.ptrs == old(proc.ptrs) + {this} && fresh(this)
      ensures target == t && clsid == c && obj == if rhs.obj != null && t in rhs.obj.types then rhs.obj else null
      ensures forall o :: o in proc.objs ==> o.deletes == old(o.deletes)
    {
      target, clsid := t, c;
      obj := null;
      new;
      proc.ptrs := proc.ptrs + {this};
      EmptyCountsNothing(proc, old(proc.Pointers()));
      if rhs.obj != null && t in rhs.obj.types {
        HeldIsLive(proc, rhs);
        Hold(proc, rhs.obj);
      }
    }

    /** A move; the source is emptied even when the cast fails, and the object may go with it. */
    constructor Move(proc: Process, t: TypeId, c: Clsid, rhs: CAutoPtr)
      requires proc.Sound() && rhs in proc.ptrs
      modifies proc`ptrs, proc.objs, rhs`obj
      ensures proc.Sound() && proc.ptrs == old(proc.ptrs) + {this} && fresh(this)
      ensures target == t && clsid == c && rhs.obj == null
      ensures obj == if old(rhs.obj) != null && t in old(rhs.obj).types then old(rhs.obj) else null
      ensures forall o :: o in proc.objs && o != old(rhs.obj) ==> unchanged(o)
    {
      target, clsid := t, c;
      obj := null;
      new;
      proc.ptrs := proc.ptrs + {this};
      EmptyCountsNothing(proc, old(proc.Pointers()));
      if rhs.obj != null && t in rhs.obj.types {
        HeldIsLive(proc, rhs);
        Hold(proc, rhs.obj);
      }
      rhs.Clear(proc);
    }

    /** The destructor. */
    method Destroy(proc: Process)
      requires proc.Sound() && this in proc.ptrs
      modifies proc`ptrs, this`obj, proc.objs
      ensures proc.Sound() && proc.ptrs == old(proc.ptrs) - {this}
      ensures forall o :: o in proc.objs && o != old(obj) ==> unchanged(o)
    {
      Clear(proc);
      ghost var v := proc.Pointers();
      proc.ptrs := proc.ptrs - {this};
      EmptyCountsNothing(proc, v);
    }

    /** Assignment of a raw pointer that is held, here or elsewhere, or null. */
    method AssignRaw(proc: Process, rhs: CObjBase?)
      requires proc.Sound() && this in proc.ptrs
      requires rhs != null && rhs != obj ==> target in rhs.types && exists p :: p in proc.ptrs && p.obj == rhs
      modifies this`obj, proc.objs
      ensures proc.Sound() && obj == rhs
      ensures forall o :: o in proc.objs && o != old(obj) && o != rhs ==> unchanged(o)
    {
      if obj == rhs {
        return;
      }
      Clear(proc);
      if rhs != null {
        ghost var p :| p in proc.ptrs && p.obj == rhs;
        HeldIsLive(proc, p);
        Hold(proc, rhs);
      }
    }

    /** Assignment. A failed cast throws, after this pointer has let go of its object. */
    method Assign(proc: Process, rhs: CAutoPtr) returns (thrown: bool)
      requires proc.Sound() && this in proc.ptrs && rhs in proc.ptrs
      modifies this`obj, proc.objs
      ensures proc.Sound()
      ensures thrown <==> old(rhs.obj) != null && old(rhs.obj) != old(obj) && target !in old(rhs.obj).types
      ensures obj == if thrown then null else old(rhs.obj)
      ensures forall o :: o in proc.objs && o != old(obj) && o != old(rhs.obj) ==> unchanged(o)
    {
      thrown := false;
      if rhs.obj == null {
        Clear(proc);
        return;
      }
      if obj != null && obj.id == rhs.obj.id {
        return;
      }
      Clear(proc);
      var o := rhs.obj;
      if target in o.types {
        HeldIsLive(proc, rhs);
        Hold(proc, o);
      } else {
        thrown := true;
      }
    }

    /**
     Move assignment. The source is emptied, also when both held the same object: moving a pointer to
     itself drops the object. A failed cast throws and leaves the source alone.
     */
    method MoveAssign(proc: Process, rhs: CAutoPtr) returns (thrown: bool)
      requires proc.Sound() && this in proc.ptrs && rhs in proc.ptrs
      modifies this`obj, rhs`obj, proc.objs
      ensures proc.Sound()
      ensures thrown <==> old(rhs.obj) != null && old(rhs.obj) != old(obj) && target !in old(rhs.obj).types
      ensures obj == if thrown || rhs == this then null else old(rhs.obj)
      ensures rhs != this ==> rhs.obj == if thrown then old(rhs.obj) else null
      ensures forall o :: o in proc.objs && o != old(obj) && o != old(rhs.obj) ==> unchanged(o)
    {
      thrown := false;
      if rhs.obj == null {
        Clear(proc);
        return;
      }
      if obj != null && obj.id == rhs.obj.id {
        rhs.Clear(proc);
        return;
      }
      Clear(proc);
      var o := rhs.obj;
      if target in o.types {
        HeldIsLive(proc, rhs);
        Hold(proc, o);
        rhs.Clear(proc);
      } else {
        thrown := true;
      }
    }

    /** The class to create: the one asked for, or the pointer's own. */
    function Effective(c: Clsid): Clsid {
      if c != Objects.CLSID_INVALID then c else clsid
    }

    /**
     The object is let go, and a new one of the class is made, directly or by a factory. On success this
     pointer is its only holder; an object of the wrong class is deleted again.
     */
    method NewObj(proc: Process, c: Clsid, hasCfg: bool) returns (ret: int)
      requires proc.Sound() && this in proc.ptrs
      modifies this`obj, proc`objId, proc`objs, proc.objs
      ensures proc.Sound() && old(proc.objs) <= proc.objs && fresh(proc.objs - old(proc.objs))
      ensures ret == 0 && Effective(c) != Objects.CLSID_INVALID ==>
                obj != null && fresh(obj) && obj.refs == 1 && obj.clsid == Effective(c) && target in obj.types
      ensures ret == 0 && c != Objects.CLSID_INVALID ==> obj != null && obj.clsid == c
      ensures ret == 0 && c == Objects.CLSID_INVALID && clsid != Objects.CLSID_INVALID ==>
                obj != null && obj.clsid == clsid
      ensures ret != 0 || Effective(c) == Objects.CLSID_INVALID ==> obj == null
      ensures var e := Effective(c);
              && (e == Objects.CLSID_INVALID ==> ret == 0 && proc.objs == old(proc.objs))
              && (e != Objects.CLSID_INVALID && IsFast(e, hasCfg) ==>
                    ret == if target in FastTypes(e) then 0 else E_FAULT)
              && (e != Objects.CLSID_INVALID && !IsFast(e, hasCfg) ==>
                    && (ret == 0 ==> exists i :: 0 <= i < |proc.factories| && proc.FirstMaker(e, i))
                    && forall i :: 0 <= i < |proc.factories| && proc.FirstMaker(e, i) ==>
                         ret == if target in proc.factories[i].makers[e].types then 0 else E_NOTSUP)
      ensures forall o :: o in proc.objs && fresh(o) && o != obj ==> o.deletes == 1
      ensures forall o :: o in old(proc.objs) && o != old(obj) ==> unchanged(o)
    {
      Clear(proc);
      var effective := Effective(c);
      if effective == Objects.CLSID_INVALID {
        return 0;
      }
      ret := Create(proc, effective, hasCfg);
    }

    /** The fast classes first, then the factories. */
    method Create(proc: Process, c: Clsid, hasCfg: bool) returns (ret: int)
      requires proc.Sound() && this in proc.ptrs && obj == null
      modifies this`obj, proc`objId, proc`objs
      ensures proc.Sound() && old(proc.objs) <= proc.objs && fresh(proc.objs - old(proc.objs))
      ensures ret == 0 ==> obj != null && fresh(obj) && obj.refs == 1 && obj.clsid == c && target in obj.types
      ensures ret != 0 ==> obj == null
      ensures IsFast(c, hasCfg) ==> ret == if target in FastTypes(c) then 0 else E_FAULT
      ensures !IsFast(c, hasCfg) ==>
                && (ret == 0 ==> exists i :: 0 <= i < |proc.factories| && proc.FirstMaker(c, i))
                && forall i :: 0 <= i < |proc.factories| && proc.FirstMaker(c, i) ==>
                     ret == if target in proc.factories[i].makers[c].types then 0 else E_NOTSUP
      ensures forall o :: o in proc.objs && fresh(o) && o != obj ==> o.deletes == 1
    {
      ghost var v := proc.Pointers();
      var o;
      ret, o := proc.CreateObjFast(c, hasCfg);
      assert proc.Pointers() == v && proc.Sound();
      if ret == 0 {
        ret := Keep(proc, o, E_FAULT);
        return;
      }
      ret := CreateSlow(proc, c);
    }

    /** The factories alone. */
    method CreateSlow(proc: Process, c: Clsid) returns (ret: int)
      requires proc.Sound() && this in proc.ptrs && obj == null
      modifies this`obj, proc`objId, proc`objs
      ensures proc.Sound() && old(proc.objs) <= proc.objs && fresh(proc.objs - old(proc.objs))
      ensures ret == 0 ==> obj != null && fresh(obj) && obj.refs == 1 && obj.clsid == c && target in obj.types
      ensures ret != 0 ==> obj == null
      ensures ret == 0 ==> exists i :: 0 <= i < |proc.factories| && proc.FirstMaker(c, i)
      ensures forall i :: 0 <= i < |proc.factories| && proc.FirstMaker(c, i) ==>
                ret == if target in proc.factories[i].makers[c].types then 0 else E_NOTSUP
      ensures forall o :: o in proc.objs && fresh(o) && o != obj ==> o.deletes == 1
    {
      ghost var v := proc.Pointers();
      var o;
      ret, o := proc.CreateInstance(c);
      assert proc.Pointers() == v && proc.Sound();
      if ret == 0 {
        ret := Keep(proc, o, E_NOTSUP);
      }
    }

    /** A newborn object is held if it is of the right class, and released otherwise. */
    method Keep(proc: Process, o: CObjBase, failure: int) returns (ret: int)
      requires proc.Sound() && this in proc.ptrs && obj == null && failure < 0
      requires o !in proc.objs && o.refs == 1 && o.deletes == 0 && o.id <= proc.objId
      requires forall q :: q in proc.objs ==> q.id != o.id
      modifies this`obj, proc`objs, o
      ensures proc.Sound() && proc.objs == old(proc.objs) + {o}
      ensures ret == if target in o.types then 0 else failure
      ensures obj == if ret == 0 then o else null
      ensures o.refs == (if ret == 0 then 1 else 0) && o.deletes == 1 - o.refs
    {
      if target in o.types {
        Adopt(proc, o);
        ret := 0;
      } else {
        ghost var v := proc.Pointers();
        NoHolders(v, o);
        var _ := o.Release();
        ret := failure;
        proc.objs := proc.objs + {o};
        assert proc.Pointers() == v;
      }
    }
  }

  lemma HeldIsLive(proc: Process, p: CAutoPtr)
    requires proc.Sound() && p in proc.ptrs && p.obj != null
    ensures p.obj in proc.objs && p.obj.refs > 0
  {
    assert p in Holders(proc.Pointers(), p.obj);
  }

  lemma EmptyCountsNothing(proc: Process, v: View)
    requires forall p :: p in v && v[p] != null ==> p in proc.ptrs && p.obj == v[p]
    requires forall p :: p in proc.ptrs && p.obj != null ==> p in v && p.obj == v[p]
    ensures forall o :: o in proc.objs ==> Holders(proc.Pointers(), o) == Holders(v, o)
  {
    forall o | o in proc.objs ensures Holders(proc.Pointers(), o) == Holders(v, o) {
      HoldersSame(v, proc.Pointers(), o);
    }
  }
}
