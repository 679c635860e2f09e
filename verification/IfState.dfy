/**
 The state of an interface: a table of transitions, and a detour for the time the remote module is
 offline, from which the interface comes back to the state it left.
 */
module IfState {
  import opened Bytes

  datatype EnumIfState = Stopped | Starting | Started | Connected | Recovery | Paused | Unknown | Stopping
                   | Pausing | Resuming | Invalid | IoDone | StartFailed

  /** The events that occur in the table, and any other. */
  datatype Event =
    | CmdOpenPort | CmdClosePort | CmdEnableEvent | CmdShutdown | CmdPause | CmdResume | CmdCleanup
    | PortStarted | PortStartFailed | PortStopping | DBusOffline | RmtSvrOffline | PausedEvent | Resumed
    | ModOffline | ModOnline | RmtModOffline | RmtModOnline | Retry | Other(id: nat)

  /** The table m_mapState. Unknown stands for the state that was saved. */
  function Table(s: EnumIfState, e: Event): Option<EnumIfState> {
    match (s, e)
    case (Stopped, CmdOpenPort) => Some(Starting)
    case (Starting, PortStarted) => Some(Connected)
    case (Starting, PortStartFailed) => Some(StartFailed)
    case (Starting, PortStopping) => Some(Stopped)
    case (Starting, DBusOffline) => Some(Stopped)
    case (Starting, RmtSvrOffline) => Some(Stopped)
    case (Starting, CmdShutdown) => Some(Stopped)
    case (Connected, PausedEvent) => Some(Paused)
    case (Connected, PortStopping) => Some(Stopping)
    case (Connected, DBusOffline) => Some(Stopping)
    case (Connected, RmtSvrOffline) => Some(Stopping)
    case (Connected, CmdShutdown) => Some(Stopping)
    case (Connected, ModOffline) => Some(Recovery)
    case (Connected, RmtModOffline) => Some(Recovery)
    case (Connected, CmdPause) => Some(Pausing)
    case (Recovery, PortStopping) => Some(Stopping)
    case (Recovery, ModOffline) => Some(Recovery)
    case (Recovery, CmdEnableEvent) => Some(Recovery)
    case (Recovery, ModOnline) => Some(Unknown)
    case (Recovery, RmtModOnline) => Some(Unknown)
    case (Recovery, DBusOffline) => Some(Stopping)
    case (Recovery, RmtSvrOffline) => Some(Stopping)
    case (Recovery, CmdShutdown) => Some(Stopping)
    case (Paused, PortStopping) => Some(Stopping)
    case (Paused, ModOffline) => Some(Recovery)
    case (Paused, DBusOffline) => Some(Stopping)
    case (Paused, RmtModOffline) => Some(Recovery)
    case (Paused, RmtSvrOffline) => Some(Stopped)
    case (Paused, CmdShutdown) => Some(Stopping)
    case (Paused, CmdResume) => Some(Resuming)
    case (Pausing, PausedEvent) => Some(Paused)
    case (Stopping, CmdClosePort) => Some(Stopped)
    case (StartFailed, CmdCleanup) => Some(Stopping)
    case (StartFailed, Retry) => Some(Starting)
    case (Resuming, Resumed) => Some(Connected)
    case _ => None
  }

  // ---- Specification ----

  datatype State = State(state: EnumIfState, saved: EnumIfState)

  const INITIAL := State(Stopped, Invalid)

  function Step(s: State, e: Event): State {
    match Table(s.state, e)
    case None => s
    case Some(Unknown) => s.(state := s.saved)
    case Some(Recovery) => if s.state == Recovery then s else State(Recovery, s.state)
    case Some(next) => s.(state := next)
  }

  function Run(s: State, es: seq<Event>): State
    decreases |es|
  {
    if es == [] then s else Run(Step(s, es[0]), es[1..])
  }

  predicate WellFormed(s: State) {
    && s.state !in {Unknown, Invalid, Started, IoDone}
    && (s.state == Recovery ==> s.saved in {Connected, Paused})
  }

  lemma {:induction false} RunWellFormed(s: State, es: seq<Event>)
    requires WellFormed(s)
    ensures WellFormed(Run(s, es))
    decreases |es|
  {
    if es != [] {
      assert WellFormed(Step(s, es[0]));
      RunWellFormed(Step(s, es[0]), es[1..]);
    }
  }

  /** The state of an interface is never unknown or invalid, and in recovery the saved one can be resumed. */
  lemma Reachable(es: seq<Event>)
    ensures WellFormed(Run(INITIAL, es))
  {
    RunWellFormed(INITIAL, es);
  }

  /** What becomes of an interface when it is told to start, pause, resume, stop or clean up. */
  lemma Commands(s: EnumIfState)
    ensures Table(s, CmdOpenPort) == if s == Stopped then Some(Starting) else None
    ensures Table(s, CmdPause) == if s == Connected then Some(Pausing) else None
    ensures Table(s, CmdResume) == if s == Paused then Some(Resuming) else None
    ensures Table(s, CmdClosePort) == if s == Stopping then Some(Stopped) else None
    ensures Table(s, CmdCleanup) == if s == StartFailed then Some(Stopping) else None
    ensures Table(s, Retry) == if s == StartFailed then Some(Starting) else None
    ensures Table(s, CmdEnableEvent) == if s == Recovery then Some(Recovery) else None
    ensures Table(s, CmdShutdown) == if s == Starting then Some(Stopped)
                                     else if s in {Connected, Recovery, Paused} then Some(Stopping) else None
  {
  }

  /** What becomes of it when something happens to its port. */
  lemma PortIncidents(s: EnumIfState)
    ensures Table(s, PortStarted) == if s == Starting then Some(Connected) else None
    ensures Table(s, PortStartFailed) == if s == Starting then Some(StartFailed) else None
    ensures Table(s, PausedEvent) == if s in {Connected, Pausing} then Some(Paused) else None
    ensures Table(s, Resumed) == if s == Resuming then Some(Connected) else None
    ensures Table(s, PortStopping) == if s == Starting then Some(Stopped)
                                      else if s in {Connected, Recovery, Paused} then Some(Stopping) else None
    ensures forall id :: Table(s, Other(id)) == None
  {
  }

  /** What becomes of it when something happens on the other side. */
  lemma PeerIncidents(s: EnumIfState)
    ensures Table(s, DBusOffline) == Table(s, PortStopping)
    ensures Table(s, RmtSvrOffline) == if s in {Starting, Paused} then Some(Stopped)
                                       else if s in {Connected, Recovery} then Some(Stopping) else None
    ensures Table(s, ModOffline) == if s in {Connected, Paused, Recovery} then Some(Recovery) else None
    ensures Table(s, RmtModOffline) == if s in {Connected, Paused} then Some(Recovery) else None
    ensures Table(s, ModOnline) == if s == Recovery then Some(Unknown) else None
    ensures Table(s, RmtModOnline) == Table(s, ModOnline)
  {
  }

  /** Starting and stopping move only the state; the saved one stays. */
  lemma StartAndStop(s: State)
    ensures s.state == Stopped ==> Run(s, [CmdOpenPort, PortStarted]) == s.(state := Connected)
    ensures s.state in {Connected, Paused} ==> Run(s, [CmdShutdown, CmdClosePort]) == s.(state := Stopped)
  {
    hide Run;
    TwoEvents(s, CmdOpenPort, PortStarted);
    TwoEvents(s, CmdShutdown, CmdClosePort);
  }

  /** A pause, and a resume that undoes it. */
  lemma PauseAndResume(s: State)
    ensures s.state == Connected ==> Run(s, [CmdPause, PausedEvent]) == s.(state := Paused)
    ensures s.state == Paused ==> Run(s, [CmdResume, Resumed]) == s.(state := Connected)
  {
    hide Run;
    TwoEvents(s, CmdPause, PausedEvent);
    TwoEvents(s, CmdResume, Resumed);
  }

  lemma TwoEvents(s: State, a: Event, b: Event)
    ensures Run(s, [a, b]) == Step(Step(s, a), b)
  {
    hide Run, Step;
    var s1 := Step(s, a);
    RunOne(s, [a, b]);
    assert [a, b][1..] == [b];
    RunOne(s1, [b]);
    assert [b][1..] == [];
    RunNone(Step(s1, b));
  }

  /** Each state an interface can be in has a way to the stopped state. */
  function WayOut(s: EnumIfState): seq<Event> {
    match s
    case Stopped => []
    case Starting => [CmdShutdown]
    case StartFailed => [CmdCleanup, CmdClosePort]
    case Stopping => [CmdClosePort]
    case Pausing => [PausedEvent, CmdShutdown, CmdClosePort]
    case Resuming => [Resumed, CmdShutdown, CmdClosePort]
    case _ => [CmdShutdown, CmdClosePort]
  }

  lemma AlwaysStoppable(es: seq<Event>)
    ensures Run(Run(INITIAL, es), WayOut(Run(INITIAL, es).state)).state == Stopped
  {
    hide Run;
    Reachable(es);
    WayOutWorks(Run(INITIAL, es));
  }

  lemma WayOutWorks(s: State)
    requires WellFormed(s)
    ensures Run(s, WayOut(s.state)).state == Stopped
  {
    hide Run;
    var way := WayOut(s.state);
    if way == [] {
      RunNone(s);
    } else {
      var s1 := Step(s, way[0]);
      RunOne(s, way);
      if |way| == 1 {
        assert way[1..] == [];
        RunNone(s1);
      } else {
        RunTwo(s1, way[1..]);
      }
    }
  }

  lemma RunNone(s: State)
    ensures Run(s, []) == s
  {
  }

  /** The last events of every way out close the port. */
  lemma RunTwo(s: State, es: seq<Event>)
    requires s.state in {Connected, Paused, Stopping}
    requires es == [CmdClosePort] || es == [CmdShutdown, CmdClosePort]
    requires s.state == Stopping <==> |es| == 1
    ensures Run(s, es).state == Stopped
  {
    hide Run;
    RunOne(s, es);
    var s1 := Step(s, es[0]);
    if |es| > 1 {
      RunOne(s1, es[1..]);
      assert es[1..][1..] == [];
      RunNone(Step(s1, CmdClosePort));
    } else {
      assert es[1..] == [];
      RunNone(s1);
    }
  }

  lemma RunOne(s: State, es: seq<Event>)
    requires es != []
    ensures Run(s, es) == Run(Step(s, es[0]), es[1..])
  {
  }

  // ---- Episodes ----

  /** The same but for a saved state that will be overwritten before it is used. */
  predicate Alike(s: State, t: State) {
    s.state == t.state && (s.state == Recovery ==> s.saved == t.saved)
  }

  lemma {:induction false} RunAlike(s: State, t: State, es: seq<Event>)
    requires Alike(s, t) && WellFormed(s) && WellFormed(t)
    ensures Alike(Run(s, es), Run(t, es))
    decreases |es|
  {
    if es != [] {
      assert Alike(Step(s, es[0]), Step(t, es[0]));
      RunAlike(Step(s, es[0]), Step(t, es[0]), es[1..]);
    }
  }

  /** Whether the first `n` events after a module went offline leave the interface in recovery. */
  predicate Stays(es: seq<Event>, n: nat)
    requires n <= |es|
  {
    forall i :: 0 <= i < n ==> Table(Recovery, es[i]) in {None, Some(Recovery)}
  }

  /** How many events pass before one that ends the recovery. */
  function Outage(es: seq<Event>): (n: nat)
    ensures n <= |es| && Stays(es, n)
    ensures n < |es| ==> Table(Recovery, es[n]) !in {None, Some(Recovery)}
  {
    if es == [] || Table(Recovery, es[0]) !in {None, Some(Recovery)} then 0 else 1 + Outage(es[1..])
  }

  predicate GoesOffline(s: State, e: Event) {
    s.state != Recovery && Table(s.state, e) == Some(Recovery)
  }

  /** The run from `s` starts with an episode: offline, recovery for a while, and online again. */
  predicate EpisodeFirst(s: State, es: seq<Event>) {
    && es != [] && GoesOffline(s, es[0])
    && Outage(es[1..]) < |es| - 1
    && Table(Recovery, es[1..][Outage(es[1..])]) == Some(Unknown)
  }

  /** The run with every completed episode deleted. */
  function Strip(s: State, es: seq<Event>): seq<Event>
    decreases |es|
  {
    if es == [] then []
    else if EpisodeFirst(s, es) then Strip(s, es[Outage(es[1..]) + 2..])
    else [es[0]] + Strip(Step(s, es[0]), es[1..])
  }

  lemma {:induction false} RunConcat(s: State, es: seq<Event>, fs: seq<Event>)
    ensures Run(s, es + fs) == Run(Run(s, es), fs)
    decreases |es|
  {
    if es == [] {
      assert es + fs == fs;
    } else {
      RunConcat(Step(s, es[0]), es[1..], fs);
      assert (es + fs)[1..] == es[1..] + fs;
    }
  }

  lemma {:induction false} StaysInRecovery(s: State, es: seq<Event>)
    requires s.state == Recovery && Stays(es, |es|)
    ensures Run(s, es) == s
    decreases |es|
  {
    if es != [] {
      StaysInRecovery(s, es[1..]);
    }
  }

  /** An episode ends in the state it began in. */
  lemma EpisodeReturns(s: State, es: seq<Event>)
    requires WellFormed(s) && EpisodeFirst(s, es)
    ensures var t := Run(s, es[..Outage(es[1..]) + 2]);
            t.state == s.state && Alike(s, t)
  {
    var n := Outage(es[1..]);
    var mid := es[1..][..n];
    var t := Step(s, es[0]);
    assert es[..n + 2] == [es[0]] + (mid + [es[1..][n]]);
    StaysInRecovery(t, mid);
    RunConcat(t, mid, [es[1..][n]]);
    RunOne(t, [es[1..][n]]);
    RunOne(s, es[..n + 2]);
    assert es[..n + 2][1..] == mid + [es[1..][n]];
  }

  /** Deleting the completed episodes does not change where a run ends. */
  lemma {:induction false} EpisodesLeaveNoTrace(s: State, es: seq<Event>)
    requires WellFormed(s)
    ensures Alike(Run(s, es), Run(s, Strip(s, es)))
    decreases |es|
  {
    if es == [] {
    } else if EpisodeFirst(s, es) {
      var k := Outage(es[1..]) + 2;
      EpisodeReturns(s, es);
      var t := Run(s, es[..k]);
      RunWellFormed(s, es[..k]);
      RunConcat(s, es[..k], es[k..]);
      assert es[..k] + es[k..] == es;
      RunAlike(s, t, es[k..]);
      EpisodesLeaveNoTrace(s, es[k..]);
    } else {
      assert WellFormed(Step(s, es[0]));
      EpisodesLeaveNoTrace(Step(s, es[0]), es[1..]);
    }
  }

  /** No episode is completed anywhere in a run. */
  ghost predicate EpisodeFree(s: State, es: seq<Event>) {
    forall i :: 0 <= i < |es| ==> !EpisodeFirst(Run(s, es[..i]), es[i..])
  }

  /** In recovery nothing is deleted before the recovery ends. */
  lemma {:induction false} OutageKept(s: State, es: seq<Event>)
    requires s.state == Recovery
    ensures var n, r := Outage(es), Strip(s, es);
            Outage(r) == n <= |r| && (n < |es| <==> n < |r|) && (n < |es| ==> r[n] == es[n])
    decreases |es|
  {
    if es != [] {
      var r := Strip(s, es);
      assert r == [es[0]] + Strip(Step(s, es[0]), es[1..]);
      assert r[1..] == Strip(Step(s, es[0]), es[1..]);
      if Table(Recovery, es[0]) in {None, Some(Recovery)} {
        OutageKept(s, es[1..]);
      }
    }
  }

  /** And none is left. */
  lemma {:induction false} NoEpisodeLeft(s: State, es: seq<Event>)
    ensures EpisodeFree(s, Strip(s, es))
    decreases |es|
  {
    if es == [] {
    } else if EpisodeFirst(s, es) {
      NoEpisodeLeft(s, es[Outage(es[1..]) + 2..]);
    } else {
      var t := Step(s, es[0]);
      var r := Strip(s, es);
      NoEpisodeLeft(t, es[1..]);
      assert r[1..] == Strip(t, es[1..]);
      if GoesOffline(s, es[0]) {
        OutageKept(t, es[1..]);
      }
      forall i | 0 <= i < |r| ensures !EpisodeFirst(Run(s, r[..i]), r[i..]) {
        if i == 0 {
          assert r[0..] == r;
        } else {
          RunOne(s, r[..i]);
          assert r[..i][1..] == r[1..][..i - 1] && r[i..] == r[1..][i - 1..];
        }
      }
    }
  }

  // ---- The object ----

  class InterfaceState {
    // m_iState and m_iResumeState
    var state: EnumIfState
    var resumeState: EnumIfState

    ghost function Abs(): State
      reads this
    {
      State(state, resumeState)
    }

    constructor ()
      ensures Abs() == INITIAL
    {
      state := Stopped;
      resumeState := Invalid;
    }

    method TestSetState(e: Event) returns (ret: int)
      ensures ret == if Table(state, e) == None then ERROR_STATE else 0
    {
      if Table(state, e) == None {
        return ERROR_STATE;
      }
      return 0;
    }

    /** It succeeds exactly when TestSetState would, and an event that is refused changes nothing. */
    method SetStateOnEvent(e: Event) returns (ret: int)
      modifies this
      ensures Abs() == Step(old(Abs()), e)
      ensures ret == if Table(old(state), e) == None then ERROR_STATE else 0
      ensures ret != 0 ==> Abs() == old(Abs())
      ensures WellFormed(old(Abs())) ==> WellFormed(Abs())
    {
      var entry := Table(state, e);
      if entry == None {
        return ERROR_STATE;
      }
      ret := 0;
      match entry.value
      case Unknown =>
        state := resumeState;
      case Recovery =>
        if state != Recovery {
          resumeState := state;
          state := Recovery;
        }
      case next =>
        state := next;
    }
  }
}
