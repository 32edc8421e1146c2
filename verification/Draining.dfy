/** Connection bookkeeping while a router drains: every locked section is one step. */
module Draining {
  import opened Options

  /** Connections and drain channels by identity. */
  type Conn = nat
  type Channel = nat

  datatype ConnState = New | Active | Idle | Hijacked | Closed

  /** `closed` and `woken` are the connections and channels closed so far, `issued` the channels made. */
  datatype State = State(
    idle: set<Conn>, active: set<Conn>, closing: bool, drainDone: Option<Channel>,
    closed: set<Conn>, woken: seq<Channel>, issued: nat)

  const START := State({}, {}, false, None, {}, [], 0)

  datatype Step = ConnEvent(conn: Conn, to: ConnState) | DrainStep | StopStep

  /** The switch of `HandleConnState`. */
  function Tracked(s: State, conn: Conn, to: ConnState): State {
    match to
    case New => s
    case Active => s.(active := s.active + {conn}, idle := s.idle - {conn})
    case Idle =>
      s.(active := s.active - {conn}, idle := s.idle + {conn},
         closed := if s.closing then s.closed + {conn} else s.closed)
    case _ =>
      s.(idle := s.idle - {conn}, active := if conn in s.idle then s.active else s.active - {conn})
  }

  /** The last active connection wakes a waiting drain. */
  function Woken(s: State): State {
    if s.drainDone.Some? && s.active == {} then s.(drainDone := None, woken := s.woken + [s.drainDone.value]) else s
  }

  function IdleClosed(s: State): State {
    s.(closing := true, closed := s.closed + s.idle)
  }

  function Apply(s: State, step: Step): State {
    match step
    case ConnEvent(conn, to) => Woken(Tracked(s, conn, to))
    case DrainStep =>
      var r, channel := IdleClosed(s), s.issued;
      if s.active == {} then r.(issued := channel + 1, woken := s.woken + [channel])
      else r.(issued := channel + 1, drainDone := Some(channel))
    case StopStep => IdleClosed(s)
  }

  function Run(s: State, steps: seq<Step>): State
    decreases |steps|
  {
    if steps == [] then s else Run(Apply(s, steps[0]), steps[1..])
  }

  /** Channels: each is closed at most once, and a drain waits on one that is still open. */
  ghost predicate ChannelsSafe(s: State) {
    && (s.drainDone.Some? ==> s.drainDone.value < s.issued && s.drainDone.value !in s.woken)
    && (forall i :: 0 <= i < |s.woken| ==> s.woken[i] < s.issued)
    && (forall i, j :: 0 <= i < j < |s.woken| ==> s.woken[i] != s.woken[j])
  }

  ghost predicate ConnsSafe(s: State) {
    s.idle !! s.active && (s.closing ==> s.idle <= s.closed)
  }

  /** What every interleaving keeps. */
  ghost predicate Safe(s: State) {
    ConnsSafe(s) && ChannelsSafe(s) && (s.drainDone.Some? ==> s.active != {})
  }

  lemma TrackKeeps(s: State, conn: Conn, to: ConnState)
    requires ConnsSafe(s)
    ensures ConnsSafe(Tracked(s, conn, to))
    ensures to == Closed || to == Hijacked ==> conn !in Tracked(s, conn, to).idle + Tracked(s, conn, to).active
  {
  }

  lemma WakeKeeps(s: State)
    requires ChannelsSafe(s)
    ensures ChannelsSafe(Woken(s)) && (Woken(s).drainDone.Some? ==> s.active != {})
    ensures s.woken <= Woken(s).woken && (s.woken < Woken(s).woken ==> s.active == {})
  {
  }

  lemma DrainKeeps(s: State)
    requires Safe(s)
    ensures Safe(Apply(s, DrainStep)) && s.woken <= Apply(s, DrainStep).woken
    ensures s.woken < Apply(s, DrainStep).woken ==> s.active == {}
  {
  }

  lemma StepKeepsSafe(s: State, step: Step)
    requires Safe(s)
    ensures Safe(Apply(s, step))
    ensures step.ConnEvent? && (step.to == Closed || step.to == Hijacked) ==>
              step.conn !in Apply(s, step).idle + Apply(s, step).active
    ensures s.woken <= Apply(s, step).woken
    ensures s.woken < Apply(s, step).woken ==> Apply(s, step).active == {}
    ensures s.closing || step.DrainStep? || step.StopStep? <==> Apply(s, step).closing
    ensures s.closed <= Apply(s, step).closed
  {
    match step
    case ConnEvent(conn, to) =>
      hide ConnsSafe, ChannelsSafe;
      TrackKeeps(s, conn, to);
      var r := Tracked(s, conn, to);
      assert ChannelsSafe(r) by { SameChannels(s, r); }
      WakeKeeps(r);
      assert ConnsSafe(Woken(r)) by { SameConns(r, Woken(r)); }
    case DrainStep => DrainKeeps(s);
    case StopStep =>
  }

  lemma SameChannels(s: State, r: State)
    requires ChannelsSafe(s) && r.drainDone == s.drainDone && r.woken == s.woken && r.issued == s.issued
    ensures ChannelsSafe(r)
  {
  }

  lemma SameConns(s: State, r: State)
    requires ConnsSafe(s) && r.idle == s.idle && r.active == s.active && r.closing == s.closing && r.closed == s.closed
    ensures ConnsSafe(r)
  {
  }

  lemma {:induction false} RunKeepsSafe(s: State, steps: seq<Step>)
    requires Safe(s)
    ensures Safe(Run(s, steps)) && s.woken <= Run(s, steps).woken
    decreases |steps|
  {
    if steps != [] {
      StepKeepsSafe(s, steps[0]);
      RunKeepsSafe(Apply(s, steps[0]), steps[1..]);
    }
  }

  // ---------- Which connections are idle, active and closed ----------

  lemma {:induction false} RunSnoc(s: State, steps: seq<Step>)
    requires steps != []
    ensures Run(s, steps) == Apply(Run(s, steps[..|steps| - 1]), steps[|steps| - 1])
    decreases |steps|
  {
    hide Apply;
    if |steps| > 1 {
      RunSnoc(Apply(s, steps[0]), steps[1..]);
      assert steps[..|steps| - 1][1..] == steps[1..][..|steps| - 2];
    }
  }

  /** The last event of a connection in a run, `New` aside. */
  function LastEvent(steps: seq<Step>, c: Conn): Option<ConnState>
    decreases |steps|
  {
    if steps == [] then None
    else
      var last := steps[|steps| - 1];
      if last.ConnEvent? && last.conn == c && last.to != New then Some(last.to)
      else LastEvent(steps[..|steps| - 1], c)
  }

  /** An event moves its own connection only, and puts it where the event says. */
  lemma StepTracks(s: State, step: Step, c: Conn)
    requires s.idle !! s.active
    ensures var r := Apply(s, step);
            if step.ConnEvent? && step.conn == c && step.to != New
            then (c in r.idle <==> step.to == Idle) && (c in r.active <==> step.to == Active)
            else (c in r.idle <==> c in s.idle) && (c in r.active <==> c in s.active)
  {
  }

  /** After every run a connection is idle, or active, exactly when its last event says so. */
  lemma {:induction false} TrackedIff(steps: seq<Step>, c: Conn)
    ensures c in Run(START, steps).idle <==> LastEvent(steps, c) == Some(Idle)
    ensures c in Run(START, steps).active <==> LastEvent(steps, c) == Some(Active)
    decreases |steps|
  {
    hide Apply, Run;
    if steps == [] {
      assert Run(START, steps) == START by { RunNone(START); }
    } else {
      var front := steps[..|steps| - 1];
      RunSnoc(START, steps);
      TrackedIff(front, c);
      assert Run(START, front).idle !! Run(START, front).active by { RunKeepsSafe(START, front); }
      StepTracks(Run(START, front), steps[|steps| - 1], c);
    }
  }

  lemma RunNone(s: State)
    ensures Run(s, []) == s
  {
  }

  /** Some drain or stop has begun. */
  predicate Begun(steps: seq<Step>) {
    exists i :: 0 <= i < |steps| && !steps[i].ConnEvent?
  }

  lemma {:induction false} ClosingIff(steps: seq<Step>)
    ensures Run(START, steps).closing <==> Begun(steps)
    decreases |steps|
  {
    hide Run;
    if steps == [] {
      RunNone(START);
    } else {
      var front := steps[..|steps| - 1];
      RunSnoc(START, steps);
      ClosingIff(front);
      if Begun(front) {
        var i :| 0 <= i < |front| && !front[i].ConnEvent?;
        assert !steps[i].ConnEvent?;
      }
    }
  }

  /** Step `i` closes `c`: a drain or stop that finds it idle, or its turning idle after one. */
  predicate ClosesAt(steps: seq<Step>, i: nat, c: Conn)
    requires i < |steps|
  {
    if steps[i].ConnEvent? then steps[i] == ConnEvent(c, Idle) && Begun(steps[..i])
    else LastEvent(steps[..i], c) == Some(Idle)
  }

  lemma ClosesStep(s: State, step: Step, c: Conn)
    ensures c in Apply(s, step).closed <==>
            c in s.closed || (if step.ConnEvent? then step == ConnEvent(c, Idle) && s.closing else c in s.idle)
  {
  }

  /** The connections a run has closed are those some step of it closes, and no other. */
  lemma {:induction false} ClosedIff(steps: seq<Step>, c: Conn)
    ensures c in Run(START, steps).closed <==> exists i: nat :: i < |steps| && ClosesAt(steps, i, c)
    decreases |steps|
  {
    hide Run, Apply, ClosesAt, LastEvent;
    if steps == [] {
      RunNone(START);
    } else {
      var n := |steps| - 1;
      var front := steps[..n];
      RunSnoc(START, steps);
      ClosedIff(front, c);
      ClosesStep(Run(START, front), steps[n], c);
      TrackedIff(front, c);
      ClosingIff(front);
      LastCloses(steps, c);
      forall i: nat | i < n ensures ClosesAt(front, i, c) <==> ClosesAt(steps, i, c) {
        SameCloses(steps, i, c);
      }
      assert c in Run(START, steps).closed <==> c in Run(START, front).closed || ClosesAt(steps, n, c);
    }
  }

  /** Once a drain or stop has begun, every connection whose last event is `Idle` has been closed. */
  lemma IdleAreClosed(steps: seq<Step>, c: Conn)
    requires Begun(steps) && LastEvent(steps, c) == Some(Idle)
    ensures c in Run(START, steps).closed
  {
    hide Run, Apply, LastEvent, Begun;
    RunKeepsSafe(START, steps);
    TrackedIff(steps, c);
    ClosingIff(steps);
  }

  lemma LastCloses(steps: seq<Step>, c: Conn)
    requires steps != []
    ensures var n := |steps| - 1;
            ClosesAt(steps, n, c) <==>
            if steps[n].ConnEvent? then steps[n] == ConnEvent(c, Idle) && Begun(steps[..n])
            else LastEvent(steps[..n], c) == Some(Idle)
  {
  }

  lemma SameCloses(steps: seq<Step>, i: nat, c: Conn)
    requires i < |steps| - 1
    ensures ClosesAt(steps[..|steps| - 1], i, c) <==> ClosesAt(steps, i, c)
  {
    assert steps[..|steps| - 1][..i] == steps[..i];
  }

  /** No drain starts while an earlier one still waits. */
  ghost predicate OneAtATime(s: State, steps: seq<Step>)
    decreases |steps|
  {
    steps == [] || ((steps[0].DrainStep? ==> s.drainDone == None) && OneAtATime(Apply(s, steps[0]), steps[1..]))
  }

  /** Every channel handed to a drain has been closed or still will be. */
  ghost predicate Accounted(s: State) {
    forall c :: 0 <= c < s.issued ==> c in s.woken || s.drainDone == Some(c)
  }

  /** No wake-up is lost exactly when no drain starts while another one waits. */
  lemma {:induction false} NoLostWakeUpIff(s: State, steps: seq<Step>)
    requires Safe(s) && Accounted(s)
    ensures Accounted(Run(s, steps)) <==> OneAtATime(s, steps)
    decreases |steps|
  {
    if steps != [] {
      StepKeepsSafe(s, steps[0]);
      if steps[0].DrainStep? && s.drainDone.Some? {
        LostForGood(Apply(s, steps[0]), steps[1..], s.drainDone.value);
      } else {
        StepAccounts(s, steps[0]);
        NoLostWakeUpIff(Apply(s, steps[0]), steps[1..]);
      }
    }
  }

  /** Such a run: the second of two drains takes over, and the first one's channel stays open for good. */
  lemma FirstDrainLost(conn: Conn)
    ensures var s := Run(START, [ConnEvent(conn, Active), DrainStep, DrainStep, ConnEvent(conn, Idle)]);
            s.issued == 2 && s.woken == [1] && s.active == {} && s.drainDone == None
  {
    var steps := [ConnEvent(conn, Active), DrainStep, DrainStep, ConnEvent(conn, Idle)];
    var s1 := Apply(START, steps[0]);
    var s2 := Apply(s1, steps[1]);
    var s3 := Apply(s2, steps[2]);
    var s4 := Apply(s3, steps[3]);
    assert s1.active == {conn} && s2.drainDone == Some(0) && s3.drainDone == Some(1);
    assert s4.active == {};
    assert steps[1..] == [steps[1], steps[2], steps[3]];
    assert steps[1..][1..] == [steps[2], steps[3]];
    assert steps[1..][1..][1..] == [steps[3]];
    assert Run(s3, [steps[3]]) == s4;
    assert Run(s2, steps[1..][1..]) == s4;
  }

  lemma StepAccounts(s: State, step: Step)
    requires Safe(s) && Accounted(s) && (step.DrainStep? ==> s.drainDone == None)
    ensures Accounted(Apply(s, step))
  {
    var r := Apply(s, step);
    forall c | 0 <= c < r.issued ensures c in r.woken || r.drainDone == Some(c) {
      if c in s.woken {
        var i :| 0 <= i < |s.woken| && s.woken[i] == c;
        assert r.woken[i] == c;
      }
    }
  }

  /** A channel that is neither closed nor waited on stays that way. */
  lemma {:induction false} LostForGood(s: State, steps: seq<Step>, c: Channel)
    requires Safe(s) && c < s.issued && c !in s.woken && s.drainDone != Some(c)
    ensures !Accounted(Run(s, steps))
    decreases |steps|
  {
    if steps == [] {
      assert !(c in s.woken || s.drainDone == Some(c));
    } else {
      StepKeepsSafe(s, steps[0]);
      LostForGood(Apply(s, steps[0]), steps[1..], c);
    }
  }

  /** When the last active connection is gone, every drain of such a run has been woken. */
  lemma DrainedWhenQuiet(steps: seq<Step>)
    requires OneAtATime(START, steps) && Run(START, steps).active == {}
    ensures forall c :: 0 <= c < Run(START, steps).issued ==> c in Run(START, steps).woken
  {
    RunKeepsSafe(START, steps);
    NoLostWakeUpIff(START, steps);
  }

  class ConnTracker {
    var idleConns: set<Conn>
    var activeConns: set<Conn>
    var closeConnections: bool
    var drainDone: Option<Channel>
    /** Effects outside the router: connections closed, channels closed, channels made. */
    var closed: set<Conn>
    var woken: seq<Channel>
    var issued: nat

    ghost function View(): State
      reads this
    {
      State(idleConns, activeConns, closeConnections, drainDone, closed, woken, issued)
    }

    constructor ()
      ensures View() == START
    {
      idleConns, activeConns, closeConnections, drainDone := {}, {}, false, None;
      closed, woken, issued := {}, [], 0;
    }

    method HandleConnState(conn: Conn, state: ConnState)
      modifies this
      ensures View() == Apply(old(View()), ConnEvent(conn, state))
    {
      hide Tracked;
      Track(conn, state);
      if drainDone.Some? && |activeConns| == 0 {
        woken := woken + [drainDone.value];
        drainDone := None;
      }
    }

    method Track(conn: Conn, state: ConnState)
      modifies this`idleConns, this`activeConns, this`closed
      ensures View() == Tracked(old(View()), conn, state)
    {
      match state {
        case New =>
        case Active =>
          activeConns := activeConns + {conn};
          idleConns := idleConns - {conn};
        case Idle =>
          activeConns := activeConns - {conn};
          idleConns := idleConns + {conn};
          if closeConnections {
            closed := closed + {conn};
          }
        case _ => Forget(conn);
      }
    }

    /** The last case: the size of `idleConns` tells whether the connection was in it. */
    method Forget(conn: Conn)
      modifies this`idleConns, this`activeConns
      ensures idleConns == old(idleConns) - {conn}
      ensures activeConns == if conn in old(idleConns) then old(activeConns) else old(activeConns) - {conn}
    {
      var i := |idleConns|;
      idleConns := idleConns - {conn};
      if i == |idleConns| {
        activeConns := activeConns - {conn};
      }
    }

    /** The locked section of `Drain`. */
    method Drain() returns (drained: Channel)
      modifies this
      ensures View() == Apply(old(View()), DrainStep) && drained == old(issued)
    {
      drained := issued;
      issued := issued + 1;
      CloseIdleConns();
      if |activeConns| == 0 {
        woken := woken + [drained];
      } else {
        drainDone := Some(drained);
      }
    }

    method Stop()
      modifies this
      ensures View() == Apply(old(View()), StopStep)
    {
      CloseIdleConns();
    }

    method CloseIdleConns()
      modifies this`closeConnections, this`closed
      ensures closeConnections && closed == old(closed) + idleConns
    {
      closeConnections := true;
      var todo := idleConns;
      while todo != {}
        invariant closeConnections && todo <= idleConns && closed + todo == old(closed) + idleConns
      {
        var conn :| conn in todo;
        closed := closed + {conn};
        todo := todo - {conn};
      }
    }
  }
}
