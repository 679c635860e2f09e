/**
 Event subscription: each connection point counts its subscribers, and each interface keeps the list of
 the points it is subscribed to. Subscribing to a list of points is all or nothing.
 */
module Subscription {
  import opened Bytes

  type PointId = int

  /** An interface, as the sink of events. */
  type Sink = int

  // an empty pointer
  const NO_SINK: Sink := 0

  // ---- Specification ----

  /** For every connection point, how many subscriptions each sink holds. */
  type Counts = map<PointId, map<Sink, int>>

  function Count(c: Counts, p: PointId, s: Sink): int {
    if p in c && s in c[p] then c[p][s] else 0
  }

  function Inc(m: map<Sink, int>, s: Sink): map<Sink, int> {
    m[s := (if s in m then m[s] else 0) + 1]
  }

  function Dec(m: map<Sink, int>, s: Sink): map<Sink, int> {
    if s !in m then m else if m[s] <= 1 then m - {s} else m[s := m[s] - 1]
  }

  function Add(c: Counts, p: PointId, s: Sink): Counts {
    if p in c then c[p := Inc(c[p], s)] else c
  }

  function Remove(c: Counts, p: PointId, s: Sink): Counts {
    if p in c then c[p := Dec(c[p], s)] else c
  }

  function AddAll(c: Counts, ps: seq<PointId>, s: Sink): Counts
    decreases |ps|
  {
    if ps == [] then c else Add(AddAll(c, ps[..|ps| - 1], s), ps[|ps| - 1], s)
  }

  function RemoveAll(c: Counts, ps: seq<PointId>, s: Sink): Counts
    decreases |ps|
  {
    if ps == [] then c else Remove(RemoveAll(c, ps[..|ps| - 1], s), ps[|ps| - 1], s)
  }

  /** The points of a list that come before the first one that does not exist. */
  function Found(c: Counts, ps: seq<PointId>): (n: nat)
    ensures n <= |ps| && (forall i :: 0 <= i < n ==> ps[i] in c) && (n < |ps| ==> ps[n] !in c)
  {
    if ps == [] || ps[0] !in c then 0 else 1 + Found(c, ps[1..])
  }

  lemma FoundStep(c: Counts, ps: seq<PointId>, i: nat)
    requires i <= |ps|
    ensures i == 0 ==> ps[i..] == ps
    ensures Found(c, ps[i..]) == if i < |ps| && ps[i] in c then 1 + Found(c, ps[i + 1..]) else 0
  {
    if i < |ps| {
      assert ps[i..][1..] == ps[i + 1..];
    }
  }

  lemma AddAllStep(c: Counts, ps: seq<PointId>, p: PointId, s: Sink)
    ensures AddAll(c, [], s) == c
    ensures AddAll(c, ps + [p], s) == Add(AddAll(c, ps, s), p, s)
  {
    assert (ps + [p])[..|ps|] == ps;
  }

  datatype World = World(counts: Counts, topics: map<Sink, seq<PointId>>)

  datatype Op = Subscribe(s: Sink, ps: seq<PointId>) | Unsubscribe(s: Sink)

  function Topics(w: World, s: Sink): seq<PointId> {
    if s in w.topics then w.topics[s] else []
  }

  /** Old subscriptions are dropped first; then all points are taken, or none. */
  function Do(w: World, op: Op): World {
    var c := RemoveAll(w.counts, Topics(w, op.s), op.s);
    match op
    case Unsubscribe(s) => World(c, w.topics[s := []])
    case Subscribe(s, ps) =>
      var n := Found(c, ps);
      if n == |ps| then World(AddAll(c, ps, s), w.topics[s := ps])
      else World(RemoveAll(AddAll(c, ps[..n], s), ps[..n], s), w.topics[s := []])
  }

  function Run(w: World, ops: seq<Op>): World
    decreases |ops|
  {
    if ops == [] then w else Run(Do(w, ops[0]), ops[1..])
  }

  // ---- Conservation ----

  /** Entries are positive: a subscriber without a subscription is not listed. */
  ghost predicate Positive(c: Counts) {
    forall p, s :: p in c && s in c[p] ==> c[p][s] > 0
  }

  /** What an interface holds at a point is how often the point occurs in its list; listed points exist. */
  ghost predicate Conserved(w: World) {
    && Positive(w.counts)
    && (forall s, p :: Count(w.counts, p, s) == multiset(Topics(w, s))[p])
    && forall s, p :: p in Topics(w, s) ==> p in w.counts
  }

  lemma MultisetFront(ps: seq<PointId>)
    requires ps != []
    ensures multiset(ps) == multiset(ps[..|ps| - 1]) + multiset{ps[|ps| - 1]}
  {
    assert ps == ps[..|ps| - 1] + [ps[|ps| - 1]];
  }

  /** Subscribing adds one for each occurrence and touches no other sink. */
  lemma {:induction false} AddAllCounts(c: Counts, ps: seq<PointId>, s: Sink)
    requires Positive(c) && forall p <- ps :: p in c
    ensures var d := AddAll(c, ps, s);
            && Positive(d) && d.Keys == c.Keys
            && forall p, t :: Count(d, p, t) == Count(c, p, t) + if t == s then multiset(ps)[p] else 0
    decreases |ps|
  {
    if ps != [] {
      var front, last := ps[..|ps| - 1], ps[|ps| - 1];
      assert forall p <- front :: p in ps;
      AddAllCounts(c, front, s);
      MultisetFront(ps);
      AddOne(AddAll(c, front, s), last, s);
    }
  }

  lemma AddOne(c: Counts, p: PointId, s: Sink)
    requires Positive(c) && p in c
    ensures var d := Add(c, p, s);
            && Positive(d) && d.Keys == c.Keys
            && forall q, t :: Count(d, q, t) == Count(c, q, t) + if t == s && q == p then 1 else 0
  {
  }

  /** Unsubscribing takes one for each occurrence, as long as they are all there. */
  lemma {:induction false} RemoveAllCounts(c: Counts, ps: seq<PointId>, s: Sink)
    requires Positive(c) && forall p :: multiset(ps)[p] <= Count(c, p, s)
    ensures var d := RemoveAll(c, ps, s);
            && Positive(d) && d.Keys == c.Keys
            && forall p, t :: Count(d, p, t) == Count(c, p, t) - if t == s then multiset(ps)[p] else 0
    decreases |ps|
  {
    if ps != [] {
      var front, last := ps[..|ps| - 1], ps[|ps| - 1];
      MultisetFront(ps);
      forall p ensures multiset(front)[p] <= Count(c, p, s) {
        assert multiset(ps)[p] <= Count(c, p, s);
      }
      RemoveAllCounts(c, front, s);
      var d := RemoveAll(c, front, s);
      assert multiset(ps)[last] <= Count(c, last, s);
      RemoveOne(d, last, s);
    }
  }

  lemma RemoveOne(c: Counts, p: PointId, s: Sink)
    requires Positive(c) && Count(c, p, s) > 0
    ensures var d := Remove(c, p, s);
            && Positive(d) && d.Keys == c.Keys
            && forall q, t :: Count(d, q, t) == Count(c, q, t) - if t == s && q == p then 1 else 0
  {
  }

  /** Whatever an interface held before, a failed subscription leaves it with nothing anywhere. */
  lemma FailureLeavesNothing(w: World, s: Sink, ps: seq<PointId>)
    requires Conserved(w)
    ensures var v := Do(w, Subscribe(s, ps));
            (exists p :: p in ps && p !in w.counts) ==>
              Topics(v, s) == [] && forall p :: Count(v.counts, p, s) == 0
  {
    DoConserves(w, Subscribe(s, ps));
    RemoveAllCounts(w.counts, Topics(w, s), s);
  }

  /** When all points exist, the interface is subscribed to them, once for each occurrence, and to nothing else. */
  lemma SuccessSubscribes(w: World, s: Sink, ps: seq<PointId>)
    requires Conserved(w) && forall p <- ps :: p in w.counts
    ensures var v := Do(w, Subscribe(s, ps));
            Topics(v, s) == ps && forall p :: Count(v.counts, p, s) == multiset(ps)[p]
  {
    hide AddAll, RemoveAll, Positive, Count, Conserved;
    var c := RemoveAll(w.counts, Topics(w, s), s);
    NothingHeld(w, s);
    forall p <- ps ensures p in c {
      assert p in w.counts.Keys;
    }
    assert forall i :: 0 <= i < |ps| ==> ps[i] in ps;
    AddAllCounts(c, ps, s);
  }

  /** An interface that unsubscribes holds nothing anywhere. */
  lemma UnsubscribedHoldsNothing(w: World, s: Sink)
    requires Conserved(w)
    ensures var v := Do(w, Unsubscribe(s));
            Topics(v, s) == [] && forall p :: Count(v.counts, p, s) == 0
  {
    hide RemoveAll, Positive, Count, Conserved;
    NothingHeld(w, s);
  }

  /** Every operation conserves the counts, and does nothing to the other interfaces. */
  lemma DoConserves(w: World, op: Op)
    requires Conserved(w)
    ensures Conserved(Do(w, op)) && Do(w, op).counts.Keys == w.counts.Keys
    ensures forall t :: t != op.s ==> Topics(Do(w, op), t) == Topics(w, t)
    ensures forall t, p :: t != op.s ==> Count(Do(w, op).counts, p, t) == Count(w.counts, p, t)
  {
    hide AddAll, RemoveAll, Positive, Count, Conserved;
    var s := op.s;
    var c := RemoveAll(w.counts, Topics(w, s), s);
    NothingHeld(w, s);
    match op
    case Unsubscribe(_) =>
      Settled(w, c, s, []);
    case Subscribe(_, ps) =>
      var n := Found(c, ps);
      if n == |ps| {
        AddAllCounts(c, ps, s);
        Settled(w, AddAll(c, ps, s), s, ps);
      } else {
        UndoneCounts(c, ps[..n], s);
        Settled(w, RemoveAll(AddAll(c, ps[..n], s), ps[..n], s), s, []);
      }
  }

  /** After the old subscriptions are given back. */
  lemma NothingHeld(w: World, s: Sink)
    requires Conserved(w)
    ensures var c := RemoveAll(w.counts, Topics(w, s), s);
            && Positive(c) && c.Keys == w.counts.Keys
            && forall p, t :: Count(c, p, t) == if t == s then 0 else Count(w.counts, p, t)
  {
    hide RemoveAll, Count;
    RemoveAllCounts(w.counts, Topics(w, s), s);
  }

  lemma Settled(w: World, d: Counts, s: Sink, ps: seq<PointId>)
    requires Conserved(w) && Positive(d) && d.Keys == w.counts.Keys && forall p <- ps :: p in d
    requires forall p, t :: Count(d, p, t) == if t == s then multiset(ps)[p] else Count(w.counts, p, t)
    ensures var v := World(d, w.topics[s := ps]);
            && Conserved(v) && Topics(v, s) == ps
            && (forall t :: t != s ==> Topics(v, t) == Topics(w, t))
            && forall t, p :: t != s ==> Count(d, p, t) == Count(w.counts, p, t)
  {
    hide Count;
    var v := World(d, w.topics[s := ps]);
    assert forall t :: Topics(v, t) == if t == s then ps else Topics(w, t);
  }

  /** Subscriptions taken and given back leave every count as it was. */
  lemma UndoneCounts(c: Counts, ps: seq<PointId>, s: Sink)
    requires Positive(c) && forall p <- ps :: p in c
    ensures var d := RemoveAll(AddAll(c, ps, s), ps, s);
            && Positive(d) && d.Keys == c.Keys && forall p, t :: Count(d, p, t) == Count(c, p, t)
  {
    hide AddAll, RemoveAll;
    AddAllCounts(c, ps, s);
    var added := AddAll(c, ps, s);
    forall p ensures multiset(ps)[p] <= Count(added, p, s) {
      assert Count(c, p, s) >= 0;
    }
    RemoveAllCounts(added, ps, s);
  }

  lemma {:induction false} RunConserves(w: World, ops: seq<Op>)
    requires Conserved(w)
    ensures Conserved(Run(w, ops))
    decreases |ops|
  {
    if ops != [] {
      DoConserves(w, ops[0]);
      RunConserves(Do(w, ops[0]), ops[1..]);
    }
  }

  // ---- The objects ----

  /** The subscribers of one connection point. */
  class EventMap {
    // m_mapElems
    var elems: map<Sink, int>

    constructor ()
      ensures elems == map[]
    {
      elems := map[];
    }

    method SubscribeEvent(s: Sink) returns (ret: int)
      modifies this
      ensures elems == Inc(old(elems), s) && ret == 0
    {
      if s !in elems {
        elems := elems[s := 1];
      } else {
        elems := elems[s := elems[s] + 1];
      }
      return 0;
    }

    method UnsubscribeEvent(s: Sink) returns (ret: int)
      modifies this
      ensures elems == Dec(old(elems), s) && ret == if s in old(elems) then 0 else E_NOENT
    {
      ret := E_NOENT;
      if s in elems {
        ret := elems[s] - 1;
        elems := elems[s := ret];
        if ret <= 0 {
          elems := elems - {s};
        }
        ret := 0;
      }
    }
  }

  /** The registry directory of the connection points; null stands for an object that is no event map. */
  class ConnPoints {
    const maps: map<PointId, EventMap?>

    ghost predicate Valid() {
      forall p, q :: p in maps && q in maps && p != q && maps[p] != null ==> maps[p] != maps[q]
    }

    ghost function Abs(): (c: Counts)
      reads maps.Values
      ensures forall p :: p in c <==> IsPoint(p)
    {
      map p | p in maps && maps[p] != null :: maps[p].elems
    }

    predicate IsPoint(p: PointId) {
      p in maps && maps[p] != null
    }

    /** What the lookup of a point answers. */
    function Lookup(p: PointId): int {
      if p !in maps then E_NOENT else if maps[p] == null then E_FAULT else 0
    }

    constructor (ms: map<PointId, EventMap?>)
      ensures maps == ms
    {
      maps := ms;
    }

    method SubscribeEvent(p: PointId, s: Sink) returns (ret: int)
      requires Valid()
      modifies maps.Values
      ensures ret == if s == NO_SINK then E_INVAL else Lookup(p)
      ensures Abs() == if ret == 0 then Add(old(Abs()), p, s) else old(Abs())
    {
      if s == NO_SINK {
        return E_INVAL;
      }
      if p !in maps {
        return E_NOENT;
      }
      var m := maps[p];
      if m == null {
        return E_FAULT;
      }
      ghost var was := Abs();
      ret := m.SubscribeEvent(s);
      ghost var now, wanted := Abs(), was[p := Inc(was[p], s)];
      assert now.Keys == wanted.Keys;
      forall q | q in now ensures now[q] == wanted[q] {
        assert q != p ==> maps[q] != m;
      }
    }

    method UnsubscribeEvent(p: PointId, s: Sink) returns (ret: int)
      requires Valid()
      modifies maps.Values
      ensures ret == if Lookup(p) != 0 then Lookup(p) else if s in old(Abs())[p] then 0 else E_NOENT
      ensures Abs() == Remove(old(Abs()), p, s)
    {
      if p !in maps {
        return E_NOENT;
      }
      var m := maps[p];
      if m == null {
        return E_FAULT;
      }
      ghost var was := Abs();
      ret := m.UnsubscribeEvent(s);
      ghost var now, wanted := Abs(), was[p := Dec(was[p], s)];
      assert now.Keys == wanted.Keys;
      forall q | q in now ensures now[q] == wanted[q] {
        assert q != p ==> maps[q] != m;
      }
    }
  }

  class Interface {
    const sink: Sink
    // m_vecTopicList
    var topicList: seq<PointId>

    constructor (s: Sink)
      requires s != NO_SINK
      ensures sink == s && topicList == []
    {
      sink := s;
      topicList := [];
    }

    method UnsubscribeEvents(points: ConnPoints) returns (ret: int)
      requires points.Valid()
      modifies this, points.maps.Values
      ensures ret == 0 && topicList == []
      ensures points.Abs() == RemoveAll(old(points.Abs()), old(topicList), sink)
    {
      var events := topicList;
      topicList := [];
      GiveBack(points, events);
      return 0;
    }

    method GiveBack(points: ConnPoints, events: seq<PointId>)
      requires points.Valid()
      modifies points.maps.Values
      ensures points.Abs() == RemoveAll(old(points.Abs()), events, sink)
    {
      hide Remove, ConnPoints.Abs, ConnPoints.Valid;
      var i := 0;
      while i < |events|
        invariant i <= |events|
        invariant points.Abs() == RemoveAll(old(points.Abs()), events[..i], sink)
      {
        var _ := points.UnsubscribeEvent(events[i], sink);
        i := i + 1;
        assert events[..i][..i - 1] == events[..i - 1];
      }
      assert events[..i] == events;
    }

    /** The points are subscribed one by one up to the first that fails. */
    method Take(points: ConnPoints, ps: seq<PointId>) returns (ret: int, events: seq<PointId>)
      requires points.Valid() && sink != NO_SINK
      modifies points.maps.Values
      ensures var n := Found(old(points.Abs()), ps);
              events == ps[..n] && ret == if n == |ps| then 0 else points.Lookup(ps[n])
      ensures (ret == 0 <==> forall i :: 0 <= i < |ps| ==> points.IsPoint(ps[i])) && ret <= 0
      ensures points.Abs() == AddAll(old(points.Abs()), events, sink)
    {
      hide ConnPoints.Abs, ConnPoints.Valid, Found, AddAll, Add;
      ghost var c := points.Abs();
      ret, events := 0, [];
      FoundStep(c, ps, 0);
      AddAllStep(c, [], 0, sink);
      var i := 0;
      while i < |ps|
        invariant i <= |ps| && ret == 0 && events == ps[..i]
        invariant forall k :: 0 <= k < i ==> points.IsPoint(ps[k])
        invariant Found(c, ps) == i + Found(c, ps[i..])
        invariant points.Abs() == AddAll(c, events, sink)
      {
        FoundStep(c, ps, i);
        AddAllStep(c, events, ps[i], sink);
        ret := points.SubscribeEvent(ps[i], sink);
        if ret < 0 {
          return;
        }
        events := events + [ps[i]];
        i := i + 1;
      }
      FoundStep(c, ps, i);
    }

    /** All the points, or none. The error is that of the first point that cannot be had. */
    method SubscribeEventsInternal(points: ConnPoints, ps: seq<PointId>) returns (ret: int)
      requires points.Valid() && sink != NO_SINK
      modifies this, points.maps.Values
      ensures var w := World(old(points.Abs()), map[sink := old(topicList)]);
              Do(w, Subscribe(sink, ps)) == World(points.Abs(), map[sink := topicList])
      ensures ret == 0 <==> forall i :: 0 <= i < |ps| ==> points.IsPoint(ps[i])
      ensures topicList == if ret == 0 then ps else []
      ensures ret == 0 ==>
                points.Abs() == AddAll(RemoveAll(old(points.Abs()), old(topicList), sink), ps, sink)
      ensures ret != 0 ==> exists n :: 0 <= n < |ps| && ret == points.Lookup(ps[n])
                             && forall i :: 0 <= i < n ==> points.IsPoint(ps[i])
    {
      hide AddAll, RemoveAll, Found, ConnPoints.Abs, ConnPoints.Valid;
      ret := UnsubscribeEvents(points);
      ghost var c := points.Abs();
      var events;
      ret, events := Take(points, ps);
      ghost var n := Found(c, ps);
      if ret < 0 {
        assert ret == points.Lookup(ps[n]) && forall i :: 0 <= i < n ==> ps[i] in c;
        GiveBack(points, events);
      } else {
        topicList := events;
        assert events == ps;
      }
    }
  }
}
