/**
 The connection manager of a server: three maps tell for each task in flight which client it serves
 and whether that client is still connected.
 */
module ConnMgr {
  import opened Bytes

  type Handle = nat

  const INVALID_HANDLE: Handle := 0

  // ---- Specification ----

  /** A multimap is kept as the values of each key in the order they were added. */
  datatype State = State(addrOf: map<Handle, string>, alive: map<Handle, bool>, tasks: map<string, seq<Handle>>)

  datatype Event = Invoke(h: Handle, src: string) | Complete(h: Handle) | Disconn(src: string)

  const INITIAL := State(map[], map[], map[])

  /** The tasks of one client (equal_range). */
  function Range(tasks: map<string, seq<Handle>>, src: string): seq<Handle> {
    if src in tasks then tasks[src] else []
  }

  function RemoveFirst(hs: seq<Handle>, h: Handle): (r: seq<Handle>) {
    if hs == [] then [] else if hs[0] == h then hs[1..] else [hs[0]] + RemoveFirst(hs[1..], h)
  }

  lemma RemoveFrom(hs: seq<Handle>, i: nat, h: Handle)
    requires i <= |hs|
    ensures RemoveFirst(hs[i..], h) == if i == |hs| then [] else if hs[i] == h then hs[i + 1..]
                                       else [hs[i]] + RemoveFirst(hs[i + 1..], h)
  {
    if i < |hs| {
      assert hs[i..][1..] == hs[i + 1..];
    }
  }

  /** What is left of the connections after those of `hs` are cut. */
  function Cut(alive: map<Handle, bool>, hs: seq<Handle>): map<Handle, bool> {
    map h | h in alive :: alive[h] && h !in hs
  }

  function Step(s: State, e: Event): State {
    match e
    case Invoke(h, src) =>
      if h == INVALID_HANDLE || src == "" then s
      else State(s.addrOf[h := src], s.alive[h := true], s.tasks[src := Range(s.tasks, src) + [h]])
    case Complete(h) =>
      if h == INVALID_HANDLE || h !in s.addrOf then s
      else
        var src := s.addrOf[h];
        State(s.addrOf - {h}, s.alive - {h}, s.tasks[src := RemoveFirst(Range(s.tasks, src), h)])
    case Disconn(src) =>
      if src == "" then s else s.(alive := Cut(s.alive, Range(s.tasks, src)))
  }

  function Run(es: seq<Event>): State {
    if es == [] then INITIAL else Step(Run(es[..|es| - 1]), es[|es| - 1])
  }

  function Response(s: State, h: Handle): int {
    if h !in s.alive then E_NOENT else if s.alive[h] then 0 else ERROR_FALSE
  }

  /** The same asked of a client: the task of its that was added first decides. */
  function ResponseTo(s: State, src: string): int {
    var hs := Range(s.tasks, src);
    if hs == [] then E_NOENT else if hs[0] in s.alive && s.alive[hs[0]] then 0 else ERROR_FALSE
  }

  // ---- The three maps agree ----

  predicate Distinct(hs: seq<Handle>) {
    forall i, j :: 0 <= i < j < |hs| ==> hs[i] != hs[j]
  }

  /** Each task in flight is listed once, under its own client, and nothing else is listed. */
  ghost predicate Agree(s: State) {
    && s.addrOf.Keys == s.alive.Keys && INVALID_HANDLE !in s.addrOf && "" !in s.addrOf.Values
    && (forall src :: Distinct(Range(s.tasks, src)))
    && forall src, h :: h in Range(s.tasks, src) <==> h in s.addrOf && s.addrOf[h] == src
  }

  /** What the caller of an event has to see to: a task is registered only while it is not in flight. */
  predicate Registered(s: State, e: Event) {
    e.Invoke? && e.h != INVALID_HANDLE && e.src != "" ==> e.h !in s.addrOf
  }

  lemma {:induction false} RemoveFirstDistinct(hs: seq<Handle>, h: Handle)
    requires Distinct(hs)
    ensures var r := RemoveFirst(hs, h);
            Distinct(r) && forall x :: x in r <==> x in hs && x != h
  {
    if hs != [] {
      assert hs == [hs[0]] + hs[1..];
      assert forall i :: 0 < i < |hs| ==> hs[i] != hs[0];
      RemoveFirstDistinct(hs[1..], h);
      assert hs[0] !in hs[1..];
    }
  }

  lemma InvokeBreaks(s: State, h: Handle, src: string)
    requires Agree(s) && h in s.addrOf && src != ""
    ensures !Agree(Step(s, Invoke(h, src)))
  {
    var t, was := Step(s, Invoke(h, src)), s.addrOf[h];
    assert h in Range(s.tasks, was);
    if was == src {
      var hs := Range(s.tasks, src);
      var i :| 0 <= i < |hs| && hs[i] == h;
      assert Range(t.tasks, src) == hs + [h];
      assert Range(t.tasks, src)[i] == Range(t.tasks, src)[|hs|];
    } else {
      assert h in Range(t.tasks, was) && t.addrOf[h] != was;
    }
  }

  lemma InvokeKeeps(s: State, h: Handle, src: string)
    requires Agree(s) && h !in s.addrOf && h != INVALID_HANDLE && src != ""
    ensures Agree(Step(s, Invoke(h, src)))
  {
    var t := Step(s, Invoke(h, src));
    assert h !in Range(s.tasks, src);
    forall a ensures Distinct(Range(t.tasks, a)) {
      assert Distinct(Range(s.tasks, a));
    }
    forall a, x ensures x in Range(t.tasks, a) <==> x in t.addrOf && t.addrOf[x] == a {
      assert x in Range(s.tasks, a) <==> x in s.addrOf && s.addrOf[x] == a;
      assert Range(t.tasks, a) == if a == src then Range(s.tasks, a) + [h] else Range(s.tasks, a);
    }
  }

  lemma CompleteKeeps(s: State, h: Handle)
    requires Agree(s)
    ensures Agree(Step(s, Complete(h)))
  {
    hide Distinct, RemoveFirst;
    if h in s.addrOf {
      var t := Step(s, Complete(h));
      RemoveFirstDistinct(Range(s.tasks, s.addrOf[h]), h);
      forall a ensures Distinct(Range(t.tasks, a)) {
        assert Distinct(Range(s.tasks, a));
      }
      forall a, x ensures x in Range(t.tasks, a) <==> x in t.addrOf && t.addrOf[x] == a {
        assert x in Range(s.tasks, a) <==> x in s.addrOf && s.addrOf[x] == a;
        assert a != s.addrOf[h] ==> Range(t.tasks, a) == Range(s.tasks, a);
      }
    }
  }

  /** One event keeps the agreement exactly when it does not register a task that is in flight. */
  lemma AgreeStep(s: State, e: Event)
    requires Agree(s)
    ensures Agree(Step(s, e)) <==> Registered(s, e)
  {
    match e
    case Invoke(h, src) =>
      hide Range;
      if h != INVALID_HANDLE && src != "" {
        if h in s.addrOf {
          InvokeBreaks(s, h, src);
        } else {
          InvokeKeeps(s, h, src);
        }
      }
    case Complete(h) =>
      CompleteKeeps(s, h);
    case Disconn(src) =>
      assert Cut(s.alive, Range(s.tasks, src)).Keys == s.alive.Keys;
  }

  // ---- Over a whole history ----

  /** Every task is registered only while it is not in flight. */
  ghost predicate Orderly(es: seq<Event>) {
    forall i :: 0 <= i < |es| ==> Registered(Run(es[..i]), es[i])
  }

  lemma OrderlyPrefix(es: seq<Event>)
    requires es != [] && Orderly(es)
    ensures Orderly(es[..|es| - 1]) && Registered(Run(es[..|es| - 1]), es[|es| - 1])
  {
    var front := es[..|es| - 1];
    forall i | 0 <= i < |front| ensures Registered(Run(front[..i]), front[i]) {
      assert front[..i] == es[..i];
    }
  }

  lemma {:induction false} OrderlyAgrees(es: seq<Event>)
    requires Orderly(es)
    ensures Agree(Run(es))
  {
    if es != [] {
      OrderlyPrefix(es);
      OrderlyAgrees(es[..|es| - 1]);
      AgreeStep(Run(es[..|es| - 1]), es[|es| - 1]);
    }
  }

  // ---- What disorder leaves behind ----

  /** How often a task is listed under a client beyond what the map of addresses accounts for. */
  function Extra(s: State, h: Handle, src: string): int {
    var listed: int := multiset(Range(s.tasks, src))[h];
    if h in s.addrOf && s.addrOf[h] == src then listed - 1 else listed
  }

  /** Every task with an address is listed under it: no `Extra` is negative. */
  ghost predicate Backed(s: State) {
    forall h :: h in s.addrOf ==> h in Range(s.tasks, s.addrOf[h])
  }

  lemma {:induction false} RemoveFirstCounts(hs: seq<Handle>, h: Handle)
    requires h in hs
    ensures multiset(RemoveFirst(hs, h)) == multiset(hs) - multiset{h}
  {
    assert hs == [hs[0]] + hs[1..];
    if hs[0] != h {
      RemoveFirstCounts(hs[1..], h);
      assert multiset(hs) == multiset{hs[0]} + multiset(hs[1..]);
    }
  }

  lemma ExtraInvoke(s: State, x: Handle, a: string, h: Handle, src: string)
    ensures Extra(Step(s, Invoke(x, a)), h, src) >= Extra(s, h, src)
  {
    hide Range;
    if x != INVALID_HANDLE && a != "" {
      var was := Range(s.tasks, src);
      RangeStep(s, Invoke(x, a), src);
      assert multiset(was + [x]) == multiset(was) + multiset{x};
    }
  }

  lemma ExtraComplete(s: State, x: Handle, h: Handle, src: string)
    requires Backed(s)
    ensures Extra(Step(s, Complete(x)), h, src) >= Extra(s, h, src)
  {
    hide RemoveFirst;
    if x in s.addrOf && x != INVALID_HANDLE {
      var t, a := Step(s, Complete(x)), s.addrOf[x];
      RemoveFirstCounts(Range(s.tasks, a), x);
      assert Range(t.tasks, src) == if src == a then RemoveFirst(Range(s.tasks, a), x) else Range(s.tasks, src);
    }
  }

  /** No event lowers an `Extra`. */
  lemma ExtraStep(s: State, e: Event, h: Handle, src: string)
    requires Backed(s)
    ensures Extra(Step(s, e), h, src) >= Extra(s, h, src)
  {
    hide Backed;
    match e
    case Invoke(x, a) => ExtraInvoke(s, x, a, h, src);
    case Complete(x) => ExtraComplete(s, x, h, src);
    case Disconn(_) =>
  }

  lemma BackedStep(s: State, e: Event)
    requires Backed(s)
    ensures Backed(Step(s, e))
  {
    hide RemoveFirst;
    var t := Step(s, e);
    forall h | h in t.addrOf ensures h in Range(t.tasks, t.addrOf[h]) {
      ExtraStep(s, e, h, t.addrOf[h]);
      if h in s.addrOf && s.addrOf[h] == t.addrOf[h] {
        assert h in multiset(Range(s.tasks, s.addrOf[h]));
      }
    }
  }

  /** A task registered while it is in flight is listed once too often from then on. */
  lemma DisorderShows(s: State, e: Event) returns (src: string)
    requires Backed(s) && !Registered(s, e)
    ensures Extra(Step(s, e), e.h, src) > 0
  {
    src := s.addrOf[e.h];
    assert e.h in multiset(Range(s.tasks, src));
    assert Range(Step(s, e).tasks, e.src) == Range(s.tasks, e.src) + [e.h];
  }

  lemma {:induction false} RunBacked(es: seq<Event>)
    ensures Backed(Run(es))
  {
    if es != [] {
      RunBacked(es[..|es| - 1]);
      BackedStep(Run(es[..|es| - 1]), es[|es| - 1]);
    }
  }

  lemma {:induction false} ExtraStays(es: seq<Event>, i: nat, h: Handle, src: string)
    requires i <= |es|
    ensures Extra(Run(es), h, src) >= Extra(Run(es[..i]), h, src)
    decreases |es|
  {
    hide Extra, Step;
    if i < |es| {
      var front := es[..|es| - 1];
      assert front[..i] == es[..i];
      ExtraStays(front, i, h, src);
      RunBacked(front);
      ExtraStep(Run(front), es[|es| - 1], h, src);
    } else {
      assert es[..i] == es;
    }
  }

  lemma {:induction false} DistinctCounts(hs: seq<Handle>, h: Handle)
    requires Distinct(hs)
    ensures multiset(hs)[h] <= 1
  {
    if hs != [] {
      assert hs == [hs[0]] + hs[1..];
      assert forall i :: 0 < i < |hs| ==> hs[i] != hs[0];
      DistinctCounts(hs[1..], h);
      assert hs[0] !in hs[1..];
    }
  }

  lemma AgreeNoExtra(s: State, h: Handle, src: string)
    requires Agree(s)
    ensures Extra(s, h, src) <= 0
  {
    DistinctCounts(Range(s.tasks, src), h);
    assert h in multiset(Range(s.tasks, src)) <==> h in Range(s.tasks, src);
  }

  /** The maps agree after exactly those runs that register tasks only while they are not in flight. */
  lemma RunAgrees(es: seq<Event>)
    ensures Agree(Run(es)) <==> Orderly(es)
  {
    hide Agree, Run, Extra, Step;
    if Orderly(es) {
      OrderlyAgrees(es);
    } else {
      var i :| 0 <= i < |es| && !Registered(Run(es[..i]), es[i]);
      RunBacked(es[..i]);
      var src := DisorderShows(Run(es[..i]), es[i]);
      RunNext(es, i);
      ExtraStays(es, i + 1, es[i].h, src);
      if Agree(Run(es)) {
        AgreeNoExtra(Run(es), es[i].h, src);
      }
    }
  }

  lemma RunNext(es: seq<Event>, i: nat)
    requires i < |es|
    ensures Run(es[..i + 1]) == Step(Run(es[..i]), es[i])
  {
    var upTo := es[..i + 1];
    assert upTo[..|upTo| - 1] == es[..i];
  }

  // ---- What the maps tell of the history ----

  /** `h` was invoked at `i` by a client with a name, and has not completed since. */
  predicate InFlight(es: seq<Event>, h: Handle, i: nat) {
    && i < |es| && es[i].Invoke? && es[i].h == h && es[i].src != ""
    && forall j :: i < j < |es| ==> es[j] != Complete(h)
  }

  /** The client that invoked at `i` has gone since. */
  predicate Gone(es: seq<Event>, i: nat)
    requires i < |es| && es[i].Invoke?
  {
    exists j :: i < j < |es| && es[j] == Disconn(es[i].src)
  }

  /** What the maps say of a task that the history has in flight. */
  lemma {:induction false} InFlightIsKnown(es: seq<Event>, h: Handle, i: nat)
    requires Orderly(es) && h != INVALID_HANDLE && InFlight(es, h, i)
    ensures var s := Run(es);
            h in s.addrOf && s.addrOf[h] == es[i].src && h in s.alive && (s.alive[h] <==> !Gone(es, i))
  {
    hide Agree, Orderly, Registered, Gone;
    var front, e := es[..|es| - 1], es[|es| - 1];
    OrderlyPrefix(es);
    OrderlyAgrees(front);
    if i == |es| - 1 {
      assert !Gone(es, i) by { NotGoneYet(es); }
    } else {
      InFlightStep(es, h, i);
      GoneStep(es, i);
      InFlightIsKnown(front, h, i);
      OthersKept(Run(front), e, h);
    }
  }

  lemma NotGoneYet(es: seq<Event>)
    requires es != [] && es[|es| - 1].Invoke?
    ensures !Gone(es, |es| - 1)
  {
  }

  /** An orderly event keeps what is known of a task, but for its completion and the loss of its client. */
  lemma OthersKept(s: State, e: Event, h: Handle)
    requires Agree(s) && Registered(s, e) && h in s.addrOf && e != Complete(h)
    ensures var t := Step(s, e);
            && h in t.addrOf && t.addrOf[h] == s.addrOf[h] && h in s.alive && h in t.alive
            && (t.alive[h] <==> s.alive[h] && e != Disconn(s.addrOf[h]))
  {
  }

  /** And what it says of the history that the maps have a task in flight. */
  lemma {:induction false} KnownIsInFlight(es: seq<Event>, h: Handle) returns (i: nat)
    requires h != INVALID_HANDLE && h in Run(es).addrOf
    ensures InFlight(es, h, i)
  {
    var front, e := es[..|es| - 1], es[|es| - 1];
    if e == Invoke(h, if e.Invoke? then e.src else "") && e.src != "" {
      i := |es| - 1;
    } else {
      i := KnownIsInFlight(front, h);
      assert forall j :: 0 <= j < |front| ==> front[j] == es[j];
    }
  }

  lemma InFlightStep(es: seq<Event>, h: Handle, i: nat)
    requires es != []
    ensures var front, e := es[..|es| - 1], es[|es| - 1];
            InFlight(es, h, i) <==>
              (i == |es| - 1 && e.Invoke? && e.h == h && e.src != "") || (InFlight(front, h, i) && e != Complete(h))
  {
    var front := es[..|es| - 1];
    assert forall j :: 0 <= j < |front| ==> front[j] == es[j];
  }

  lemma GoneStep(es: seq<Event>, i: nat)
    requires i + 1 < |es| && es[i].Invoke?
    ensures var front := es[..|es| - 1];
            Gone(es, i) <==> Gone(front, i) || es[|es| - 1] == Disconn(es[i].src)
  {
    var front := es[..|es| - 1];
    assert forall j :: 0 <= j < |front| ==> front[j] == es[j];
    if Gone(front, i) {
      var j :| i < j < |front| && front[j] == Disconn(front[i].src);
      assert es[j] == Disconn(es[i].src);
    }
  }

  /** The answer for a valid handle, from the history alone. */
  lemma ResponseTellsHistory(es: seq<Event>, h: Handle)
    requires Orderly(es) && h != INVALID_HANDLE
    ensures var r := Response(Run(es), h);
            && (r == 0 <==> exists i: nat :: InFlight(es, h, i) && !Gone(es, i))
            && (r == ERROR_FALSE <==> exists i: nat :: InFlight(es, h, i) && Gone(es, i))
            && (r == E_NOENT <==> forall i: nat :: !InFlight(es, h, i))
  {
    hide Orderly, Gone, Run;
    OrderlyAgrees(es);
    forall i: nat | InFlight(es, h, i)
      ensures h in Run(es).addrOf && h in Run(es).alive && (Run(es).alive[h] <==> !Gone(es, i))
    {
      InFlightIsKnown(es, h, i);
    }
    if h in Run(es).addrOf {
      var i := KnownIsInFlight(es, h);
    }
  }

  /** A task has one invocation it is in flight from. */
  lemma {:induction false} InFlightOnce(es: seq<Event>, h: Handle, i: nat, j: nat)
    requires Orderly(es) && h != INVALID_HANDLE && InFlight(es, h, i) && InFlight(es, h, j)
    ensures i == j
  {
    hide Orderly, Run;
    var front, e := es[..|es| - 1], es[|es| - 1];
    OrderlyPrefix(es);
    InFlightStep(es, h, i);
    InFlightStep(es, h, j);
    if InFlight(front, h, i) && InFlight(front, h, j) {
      InFlightOnce(front, h, i, j);
    } else if i != j {
      var k := if InFlight(front, h, i) then i else j;
      InFlightIsKnown(front, h, k);
    }
  }

  /** A removal takes out one place, or nothing. */
  lemma {:induction false} RemovedAt(hs: seq<Handle>, h: Handle) returns (p: nat)
    ensures p <= |hs| && RemoveFirst(hs, h) == hs[..p] + if p < |hs| then hs[p + 1..] else []
  {
    if hs == [] || hs[0] == h {
      p := 0;
    } else {
      var rest := hs[1..];
      var q := RemovedAt(rest, h);
      p := q + 1;
      assert hs[..p] == [hs[0]] + rest[..q];
      assert q < |rest| ==> hs[p + 1..] == rest[q + 1..];
    }
  }

  /** What one event does to the list of a client. */
  lemma RangeStep(s: State, e: Event, src: string)
    ensures var was, now := Range(s.tasks, src), Range(Step(s, e).tasks, src);
            now == if e.Invoke? && e.h != INVALID_HANDLE && src != "" && e.src == src then was + [e.h]
                   else if e.Complete? && e.h != INVALID_HANDLE && e.h in s.addrOf && s.addrOf[e.h] == src then
                     RemoveFirst(was, e.h)
                   else was
  {
    hide RemoveFirst;
  }

  /** The places in the list of a client before the last event of the tasks at two places after it. */
  lemma ListedBefore(es: seq<Event>, src: string, a: nat, b: nat) returns (x: nat, y: nat)
    requires es != [] && Orderly(es) && a < b < |Range(Run(es).tasks, src)|
    ensures var was, now := Range(Run(es[..|es| - 1]).tasks, src), Range(Run(es).tasks, src);
            && x < y <= |was| && was[x] == now[a] && (y < |was| ==> was[y] == now[b])
            && (y == |was| ==> es[|es| - 1] == Invoke(now[b], src) && now[a] != now[b])
  {
    hide RemoveFirst, Step, Range, Orderly, Distinct;
    var front, e := es[..|es| - 1], es[|es| - 1];
    var was := Range(Run(front).tasks, src);
    OrderlyPrefix(es);
    OrderlyAgrees(front);
    RangeStep(Run(front), e, src);
    x, y := a, b;
    if e.Complete? && e.h in Run(front).addrOf && Run(front).addrOf[e.h] == src {
      var p := RemovedAt(was, e.h);
      x, y := if a < p then a else a + 1, if b < p then b else b + 1;
    }
  }

  /** A task that is listed is not invoked again: it has been in flight from before. */
  lemma InFlightBefore(es: seq<Event>, src: string, h: Handle, i: nat)
    requires es != [] && Orderly(es) && h in Range(Run(es[..|es| - 1]).tasks, src) && InFlight(es, h, i)
    ensures InFlight(es[..|es| - 1], h, i)
  {
    hide Orderly, Run, Range;
    var front := es[..|es| - 1];
    OrderlyPrefix(es);
    OrderlyAgrees(front);
    InFlightStep(es, h, i);
  }

  /** A task that is invoked now has not been in flight before. */
  lemma InFlightNow(es: seq<Event>, h: Handle, j: nat)
    requires es != [] && Orderly(es) && InFlight(es, h, j) && h != INVALID_HANDLE
    requires es[|es| - 1].Invoke? && es[|es| - 1].h == h && es[|es| - 1].src != ""
    ensures j == |es| - 1
  {
    hide Orderly, Run;
    var front := es[..|es| - 1];
    OrderlyPrefix(es);
    InFlightStep(es, h, j);
    if InFlight(front, h, j) {
      InFlightIsKnown(front, h, j);
    }
  }

  /** The tasks of a client are listed in the order in which they were invoked. */
  lemma {:induction false} ListedInOrder(es: seq<Event>, src: string, a: nat, b: nat, i: nat, j: nat)
    requires Orderly(es) && a < b < |Range(Run(es).tasks, src)|
    requires InFlight(es, Range(Run(es).tasks, src)[a], i) && InFlight(es, Range(Run(es).tasks, src)[b], j)
    ensures i < j
  {
    hide Orderly, Run, Range;
    assert es != [] by {
      NothingListed(src);
    }
    var front := es[..|es| - 1];
    var was, now := Range(Run(front).tasks, src), Range(Run(es).tasks, src);
    var x, y := ListedBefore(es, src, a, b);
    if y < |was| {
      InFlightBefore(es, src, was[x], i);
      InFlightBefore(es, src, was[y], j);
      OrderlyPrefix(es);
      ListedInOrder(front, src, x, y, i, j);
    } else {
      OrderlyAgrees(es);
      assert now[b] in now;
      assert Run(es).addrOf[now[b]] == src && src in Run(es).addrOf.Values;
      InFlightNow(es, now[b], j);
    }
  }

  lemma NothingListed(src: string)
    ensures Range(Run([]).tasks, src) == []
  {
  }

  /** The client invoked a task at `i` that is still in flight. */
  predicate Serves(es: seq<Event>, src: string, i: nat) {
    i < |es| && es[i].Invoke? && es[i].src == src && es[i].h != INVALID_HANDLE && InFlight(es, es[i].h, i)
  }

  predicate Earliest(es: seq<Event>, src: string, i: nat) {
    Serves(es, src, i) && forall j: nat :: j < i ==> !Serves(es, src, j)
  }

  /** What is listed is in flight, and what is in flight is listed. */
  lemma ListedServes(es: seq<Event>, src: string, a: nat) returns (i: nat)
    requires Orderly(es) && a < |Range(Run(es).tasks, src)|
    ensures Serves(es, src, i) && es[i].h == Range(Run(es).tasks, src)[a]
  {
    hide Orderly, Run, Range;
    var hs := Range(Run(es).tasks, src);
    OrderlyAgrees(es);
    assert hs[a] in hs;
    i := KnownIsInFlight(es, hs[a]);
    InFlightIsKnown(es, hs[a], i);
  }

  lemma ServesListed(es: seq<Event>, src: string, i: nat) returns (a: nat)
    requires Orderly(es) && Serves(es, src, i)
    ensures a < |Range(Run(es).tasks, src)| && Range(Run(es).tasks, src)[a] == es[i].h
  {
    hide Orderly, Run, Range;
    OrderlyAgrees(es);
    InFlightIsKnown(es, es[i].h, i);
    assert es[i].h in Range(Run(es).tasks, src);
    a :| a < |Range(Run(es).tasks, src)| && Range(Run(es).tasks, src)[a] == es[i].h;
  }

  /** The first task that is listed is the one invoked first. */
  lemma FirstListed(es: seq<Event>, src: string) returns (i: nat)
    requires Orderly(es) && Range(Run(es).tasks, src) != []
    ensures Earliest(es, src, i) && es[i].h == Range(Run(es).tasks, src)[0]
  {
    hide Orderly, Run, Range;
    i := ListedServes(es, src, 0);
    forall j: nat | j < i ensures !Serves(es, src, j) {
      if Serves(es, src, j) {
        var b := ServesListed(es, src, j);
        if b == 0 {
          InFlightOnce(es, es[i].h, i, j);
        } else {
          ListedInOrder(es, src, 0, b, i, j);
        }
      }
    }
  }

  /** The answer for a client, from the history alone: the task it invoked first of those in flight decides. */
  lemma ResponseToTellsHistory(es: seq<Event>, src: string)
    requires Orderly(es)
    ensures var r := ResponseTo(Run(es), src);
            && (r == 0 <==> exists i: nat :: Earliest(es, src, i) && !Gone(es, i))
            && (r == ERROR_FALSE <==> exists i: nat :: Earliest(es, src, i) && Gone(es, i))
            && (r == E_NOENT <==> forall i: nat :: !Serves(es, src, i))
  {
    hide Orderly, Run, Range, Gone, InFlight;
    if Range(Run(es).tasks, src) == [] {
      forall i: nat ensures !Serves(es, src, i) {
        if Serves(es, src, i) {
          var a := ServesListed(es, src, i);
        }
      }
    } else {
      var i := FirstListed(es, src);
      InFlightIsKnown(es, es[i].h, i);
      assert forall j: nat :: Earliest(es, src, j) ==> j == i;
    }
  }

  /** Registering a task a second time is not undone by completing it: its client keeps a task that is gone. */
  lemma StaleTask()
    ensures var es := [Invoke(1, "a"), Invoke(1, "b"), Complete(1)];
            !Orderly(es) && Run(es).addrOf == map[] && Range(Run(es).tasks, "a") == [1]
  {
    var es := [Invoke(1, "a"), Invoke(1, "b"), Complete(1)];
    var s1 := Step(INITIAL, es[0]);
    var s2 := Step(s1, es[1]);
    assert es[..0] == [] && es[..1] == [es[0]] && es[..2] == [es[0], es[1]];
    assert es[..1][..0] == [] && Run(es[..1]) == s1;
    assert es[..2][..1] == es[..1] && Run(es[..2]) == s2;
    assert Run(es) == Step(s2, es[2]);
    assert !Registered(Run(es[..1]), es[1]);
    assert "a" != "b" by { assert "a"[0] != "b"[0]; }
  }

  // ---- The object ----

  class IfSvrConnMgr {
    // m_pIfSvr is not null
    const hasServer: bool
    // m_mapTaskToAddr, m_mapTaskStates and m_mapAddrToTask
    var taskToAddr: map<Handle, string>
    var taskStates: map<Handle, bool>
    var addrToTask: map<string, seq<Handle>>

    ghost function Abs(): State
      reads this
    {
      State(taskToAddr, taskStates, addrToTask)
    }

    constructor (server: bool)
      ensures hasServer == server && Abs() == INITIAL
    {
      hasServer := server;
      taskToAddr, taskStates, addrToTask := map[], map[], map[];
    }

    method OnInvokeMethod(h: Handle, src: string) returns (ret: int)
      modifies this
      ensures Abs() == if hasServer then Step(old(Abs()), Invoke(h, src)) else old(Abs())
      ensures ret == if !hasServer then ERROR_STATE else if h == INVALID_HANDLE || src == "" then E_INVAL else 0
    {
      if !hasServer {
        return ERROR_STATE;
      }
      if h == INVALID_HANDLE || src == "" {
        return E_INVAL;
      }
      taskToAddr := taskToAddr[h := src];
      taskStates := taskStates[h := true];
      addrToTask := addrToTask[src := Range(addrToTask, src) + [h]];
      return 0;
    }

    method OnInvokeComplete(h: Handle) returns (ret: int)
      modifies this
      ensures Abs() == if hasServer then Step(old(Abs()), Complete(h)) else old(Abs())
      ensures ret == if h == INVALID_HANDLE then E_INVAL else if !hasServer then ERROR_STATE
                     else if h !in old(taskToAddr) then E_NOENT else 0
    {
      if h == INVALID_HANDLE {
        return E_INVAL;
      }
      if !hasServer {
        return ERROR_STATE;
      }
      if h !in taskToAddr {
        return E_NOENT;
      }
      var src := taskToAddr[h];
      taskStates := taskStates - {h};
      taskToAddr := taskToAddr - {h};
      var left := EraseFirst(Range(addrToTask, src), h);
      addrToTask := addrToTask[src := left];
      return 0;
    }

    /** The tasks of a client are gone through up to the one that is erased. */
    static method EraseFirst(range: seq<Handle>, h: Handle) returns (left: seq<Handle>)
      ensures left == RemoveFirst(range, h)
    {
      hide RemoveFirst;
      assert range[0..] == range;
      var i := 0;
      while i < |range| && range[i] != h
        invariant i <= |range|
        invariant RemoveFirst(range, h) == range[..i] + RemoveFirst(range[i..], h)
      {
        RemoveFrom(range, i, h);
        assert range[..i] + [range[i]] == range[..i + 1];
        i := i + 1;
      }
      RemoveFrom(range, i, h);
      if i == |range| {
        return range;
      }
      return range[..i] + range[i + 1..];
    }

    method OnDisconn(src: string) returns (ret: int)
      modifies this
      ensures Abs() == if hasServer then Step(old(Abs()), Disconn(src)) else old(Abs())
      ensures ret == if src == "" then E_INVAL else if !hasServer then ERROR_STATE else 0
    {
      if src == "" {
        return E_INVAL;
      }
      if !hasServer {
        return ERROR_STATE;
      }
      var range := Range(addrToTask, src);
      var i := 0;
      while i < |range|
        invariant i <= |range|
        invariant taskStates == Cut(old(taskStates), range[..i])
        invariant taskToAddr == old(taskToAddr) && addrToTask == old(addrToTask)
      {
        if range[i] in taskStates {
          taskStates := taskStates[range[i] := false];
        }
        i := i + 1;
      }
      assert range[..i] == range;
      return 0;
    }

    method CanResponse(h: Handle) returns (ret: int)
      ensures ret == if h == INVALID_HANDLE || !hasServer then ERROR_FALSE else Response(Abs(), h)
    {
      ret := ERROR_FALSE;
      if h == INVALID_HANDLE || !hasServer {
        return;
      }
      if h in taskStates {
        if taskStates[h] {
          ret := 0;
        }
      } else {
        ret := E_NOENT;
      }
    }

    /** The same asked of a client. */
    method CanResponseTo(src: string) returns (ret: int)
      ensures ret == if hasServer then ResponseTo(Abs(), src) else ERROR_FALSE
    {
      ret := ERROR_FALSE;
      if !hasServer {
        return;
      }
      var range := Range(addrToTask, src);
      if range != [] {
        if range[0] in taskStates && taskStates[range[0]] {
          ret := 0;
        }
      } else {
        ret := E_NOENT;
      }
    }
  }
}
