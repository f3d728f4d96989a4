/** What every run of the detection loop keeps: the exit handshake, how an identity can be lost, and
    how often an unidentified pane is probed. */
module AgentDetectionRuns {
  import opened Options
  import opened AgentDetection

  /* ---- the exit handshake ---- */

  /** A reported exit is pending to be cleared, and only a current agent's exit is pending. In the plain
      loop an exit that is pending between ticks has been reported. */
  predicate Sound(v: Variant, s: Detector) {
    && (s.handshake.exitReported ==> s.handshake.pendingClear)
    && (s.handshake.pendingClear ==> s.Agent().Some?)
    && (v.Plain? && s.handshake.pendingClear ==> s.handshake.exitReported)
  }

  predicate ReportsExit(events: seq<Event>) { exists i :: 0 <= i < |events| && events[i].exited }

  /** What the probing of later ticks depends on, besides the window. */
  predicate SameProbing(s: Detector, q: Detector) {
    && q.lastCheck == s.lastCheck && q.hasProbe == s.hasProbe && q.lastForeground == s.lastForeground
    && q.releaseActive == s.releaseActive && q.pendingRestore == s.pendingRestore
  }

  lemma PublishStepHandshake(s: Detector, t: Tick, agentChanged: bool, screen: Shown)
    ensures var (q, events) := PublishStep(s, t, agentChanged, screen);
            && q.handshake == s.handshake.(exitReported := s.handshake.exitReported || ExitDue(s))
            && SameProbing(s, q) && q.window == s.window
            && (!ExitDue(s) ==> !ReportsExit(events))
            && (ExitDue(s) && screen == Shown(Idle, true, false, false) ==>
                  events == [Published(s.Agent(), Idle, false, false, true)])
  {
  }

  /** Whether the tick reports an exit: when one is due, except that the spawned loop lets a screen
      update that is to be skipped swallow it. */
  predicate Reports(v: Variant, s: Detector, t: Tick) { ExitDue(s) && (v.Plain? || !t.skipUpdate) }

  predicate ScreenOutcome(v: Variant, s: Detector, t: Tick, regrouped: bool, q: Detector, events: seq<Event>) {
    && q.handshake == s.handshake.(exitReported := s.handshake.exitReported || Reports(v, s, t))
    && (Reports(v, s, t) ==> events == [Published(s.Agent(), Idle, false, false, true)])
    && (!Reports(v, s, t) ==> !ReportsExit(events))
    && SameProbing(s, q)
    && (q.window == s.window
        || q.window == SyncWindow(s.window, s.Agent(), t.suppressed, regrouped, t.contentChanged, t.now))
  }

  lemma ReadStepHandshake(v: Variant, s: Detector, t: Tick, agentChanged: bool, regrouped: bool)
    ensures var (q, events) := ReadStep(v, s, t, agentChanged, regrouped);
            ScreenOutcome(v, s, t, regrouped, q, events)
  {
    hide PublishStep, SyncWindow;
    var w := s.(scannedSeq := if s.Agent().Some? then Some(t.contentSeq) else None,
                window := SyncWindow(s.window, s.Agent(), t.suppressed, regrouped, t.contentChanged, t.now));
    PublishStepHandshake(w, t, agentChanged, Shown(Idle, true, false, false));
    if t.screen.Some? {
      PublishStepHandshake(w, t, agentChanged, t.screen.value);
    }
  }

  lemma ScreenStepHandshake(v: Variant, s: Detector, t: Tick, agentChanged: bool, regrouped: bool)
    ensures var (q, events) := ScreenStep(v, s, t, agentChanged, regrouped);
            ScreenOutcome(v, s, t, regrouped, q, events)
  {
    hide ReadStep, SyncWindow;
    var quiet := s.(pendingIdle := NOT_PENDING);
    var g :=
      if s.graceUntil.None? then s
      else quiet.(graceUntil := None, scannedSeq := if v.Spawned? then None else s.scannedSeq);
    ReadStepHandshake(v, g, t, agentChanged, regrouped);
  }

  lemma ProbeStepHandshake(s: Detector, t: Tick)
    ensures var (p, changed, events) := ProbeStep(s, t);
            && (p.handshake, changed) == ApplyAction(s.handshake, ActionAt(s, t), s.Agent(), t.Found())
            && p.lastCheck == t.now && p.hasProbe && !p.pendingRestore && p.releaseActive == s.releaseActive
            && p.window == AfterProbe(s, t).window && p.lastForeground == TrackedGroup(t.Foreground(), t.probe.group)
            && !ReportsExit(events)
  {
    hide ApplyAction, ShellAction;
  }

  /** The handshake after a whole tick, in terms of its probe. */
  lemma StepHandshake(v: Variant, s: Detector, t: Tick)
    ensures var b := Begin(v, s, t); var (q, events) := Step(v, s, t);
            var h := if Probes(b, t) then ApplyAction(b.handshake, ActionAt(b, t), b.Agent(), t.Found()).0
                     else b.handshake;
            var due := h.pendingClear && h.presence.agent.Some? && !h.exitReported;
            var reports := due && (v.Plain? || !t.skipUpdate);
            && q.handshake == h.(exitReported := h.exitReported || reports)
            && (ReportsExit(events) <==> reports)
            && (reports ==> Published(h.presence.agent, Idle, false, false, true) in events)
  {
    hide ProbeStep, ScreenStep, Probes, ApplyAction, ActionAt, Begin;
    var b := Begin(v, s, t);
    if Probes(b, t) {
      ProbeStepHandshake(b, t);
      var (p, changed, events) := ProbeStep(b, t);
      ScreenStepHandshake(v, p, t, changed, RegroupedAt(b, t));
      var more := ScreenStep(v, p, t, changed, RegroupedAt(b, t)).1;
      EventsJoin(events, more);
    } else {
      ScreenStepHandshake(v, b, t, false, RegroupedAt(b, t));
      EventsJoin([], ScreenStep(v, b, t, false, RegroupedAt(b, t)).1);
    }
  }

  lemma EventsJoin(a: seq<Event>, b: seq<Event>)
    ensures !ReportsExit(a) ==> (ReportsExit(a + b) <==> ReportsExit(b))
    ensures forall e :: e in b ==> e in a + b
    ensures forall e :: b == [e] && e.exited ==> ReportsExit(b)
  {
    assert forall i :: 0 <= i < |b| ==> (a + b)[|a| + i] == b[i];
    assert forall i :: 0 <= i < |a| ==> (a + b)[i] == a[i];
    if |b| == 1 && b[0].exited {
      assert ReportsExit(b);
    }
  }

  /** Soundness is an invariant of the loop. */
  lemma StepKeepsSound(v: Variant, s: Detector, t: Tick)
    requires Sound(v, s)
    ensures Sound(v, Step(v, s, t).0)
  {
    StepHandshake(v, s, t);
    hide Step, Probes;
  }

  function RunAll(v: Variant, s: Detector, ticks: seq<Tick>): Detector
    decreases |ticks|
  {
    if ticks == [] then s else RunAll(v, Step(v, s, ticks[0]).0, ticks[1..])
  }

  /** Every state that a detector reaches is sound. */
  lemma {:induction false} RunKeepsSound(v: Variant, s: Detector, ticks: seq<Tick>)
    requires Sound(v, s)
    ensures Sound(v, RunAll(v, s, ticks))
    decreases |ticks|
  {
    hide Step;
    if ticks != [] {
      StepKeepsSound(v, s, ticks[0]);
      RunKeepsSound(v, Step(v, s, ticks[0]).0, ticks[1..]);
    }
  }

  /** After a reported exit, the next tick with a live process probes it, and that probe ends the
      reported state, whatever it finds: the agent is back, replaced, gone or not confirmed. */
  lemma ReportedExitEnds(v: Variant, s: Detector, t: Tick)
    requires Sound(v, s) && s.handshake.exitReported && !t.reset && t.alive
    ensures Probes(Begin(v, s, t), t)
    ensures var q := Step(v, s, t).0;
            && !q.handshake.exitReported && !q.handshake.pendingClear
            && (t.Found() == s.Agent() ==> q.Agent() == s.Agent())
            && (t.Found().None? ==> q.Agent().None?)
            && (t.Found().Some? ==> q.Agent() == t.Found())
  {
    StepHandshake(v, s, t);
    hide Step;
  }

  /** Without a live process nothing is probed: a reported exit waits with its identity. */
  lemma ReportedExitWaits(v: Variant, s: Detector, t: Tick)
    requires Sound(v, s) && s.handshake.exitReported && !t.reset && !t.alive
    ensures var (q, events) := Step(v, s, t); q.handshake == s.handshake && !ReportsExit(events)
  {
    StepHandshake(v, s, t);
    hide Step;
  }

  /** When the process of the current agent has given way to the shell, the tick reports its exit, and in
      the spawned loop exactly when the screen update is not to be skipped. */
  lemma ShellTakesOver(v: Variant, s: Detector, t: Tick)
    requires Sound(v, s) && !t.reset && Probes(Begin(v, s, t), t)
    requires s.Agent().Some? && !s.handshake.exitReported && t.Found().None? && t.probe.isShell
    ensures var (q, events) := Step(v, s, t);
            && q.Agent() == s.Agent() && q.handshake.pendingClear
            && (ReportsExit(events) <==> v.Plain? || !t.skipUpdate)
            && (q.handshake.exitReported <==> ReportsExit(events))
  {
    StepHandshake(v, s, t);
    hide Step, Probes;
  }

  /** A tick whose probe finds the shell in front, on a screen whose update is to be skipped. */
  function ShellTick(): Tick {
    Tick(1000, false, None, true, false, Some(1), Probe(Some(1), true, None), 0, false, true, None)
  }

  /** The next tick, whose probe finds the given agent. */
  function AgentTick(a: Agent): Tick {
    Tick(1300, false, None, true, false, Some(2), Probe(Some(2), false, Some(a)), 1, true, false, None)
  }

  /** An exit that nobody hears of: behind a spawned pane restored with agent `a`, the first tick finds the shell
      but skips the screen update, and the second finds agent `b`. The identity changes to `b` although no exit
      of `a` was ever reported. Without the skipped update the first tick reports it. */
  lemma ExitIsSwallowed(a: Agent, b: Agent)
    requires a != b
    ensures var s := Start(Spawned, Some(a), 0);
            var (q, first) := Step(Spawned, s, ShellTick());
            var (r, second) := Step(Spawned, q, AgentTick(b));
            && q.Agent() == Some(a) && q.handshake.pendingClear && !q.handshake.exitReported
            && r.Agent() == Some(b) && !r.handshake.pendingClear
            && !ReportsExit(first) && !ReportsExit(second)
            && ReportsExit(Step(Spawned, s, ShellTick().(skipUpdate := false)).1)
  {
    var s := Start(Spawned, Some(a), 0);
    var t, heard := ShellTick(), ShellTick().(skipUpdate := false);
    assert Begin(Spawned, s, t) == s && Begin(Spawned, s, heard) == s;
    assert Probes(s, t) && Probes(s, heard);
    ShellTakesOver(Spawned, s, t);
    ShellTakesOver(Spawned, s, heard);
    var q := Step(Spawned, s, t).0;
    AgentReplaces(q, a, b);
  }

  lemma AgentReplaces(q: Detector, a: Agent, b: Agent)
    requires q.Agent() == Some(a) && q.handshake.pendingClear && !q.handshake.exitReported
    ensures var (r, events) := Step(Spawned, q, AgentTick(b));
            r.Agent() == Some(b) && !r.handshake.pendingClear && !ReportsExit(events)
  {
    StepHandshake(Spawned, q, AgentTick(b));
    assert Probes(Begin(Spawned, q, AgentTick(b)), AgentTick(b));
    hide Step;
  }

  /* ---- how an identity is lost ---- */

  /** What a run shows about the identity: resets, agents found, misses counted, exits published. */
  datatype Note = WasReset | Found(agent: Agent) | Missed | Exited(leaving: Option<Agent>)

  /** The log of one tick in front of the report of an exit: a reset, and what the probe has found. */
  function ProbeNotes(v: Variant, s: Detector, t: Tick): seq<Note> {
    var b := Begin(v, s, t);
    (if t.reset then [WasReset] else [])
    + (if !Probes(b, t) then []
       else if t.Found().Some? then [Found(t.Found().value)]
       else if ActionAt(b, t) == ObserveProbe then [Missed]
       else [])
  }

  /** The log of one tick. */
  function Notes(v: Variant, s: Detector, t: Tick): seq<Note> {
    ProbeNotes(v, s, t) + (if ReportsExit(Step(v, s, t).1) then [Exited(Step(v, s, t).0.Agent())] else [])
  }

  function Log(v: Variant, s: Detector, ticks: seq<Tick>): seq<Note>
    decreases |ticks|
  {
    if ticks == [] then []
    else
      var last := |ticks| - 1;
      Log(v, s, ticks[..last]) + Notes(v, RunAll(v, s, ticks[..last]), ticks[last])
  }

  /** Misses counted since the last agent was found, or the last reset. */
  function MissesSinceFound(log: seq<Note>): nat {
    if log == [] then 0
    else
      match log[|log| - 1]
      case WasReset => 0
      case Found(_) => 0
      case Missed => MissesSinceFound(log[..|log| - 1]) + 1
      case Exited(_) => MissesSinceFound(log[..|log| - 1])
  }

  /** The log explains the state: its misses are counted, and a reported exit is its last entry. */
  predicate Explains(log: seq<Note>, s: Detector) {
    && (s.Agent().Some? ==> s.handshake.presence.misses == MissesSinceFound(log))
    && (s.handshake.exitReported ==> log != [] && log[|log| - 1] == Exited(s.Agent()))
  }

  lemma {:induction false} MissesAppend(log: seq<Note>, n: Note)
    ensures MissesSinceFound(log + [n])
            == match n
               case WasReset => 0
               case Found(_) => 0
               case Missed => MissesSinceFound(log) + 1
               case Exited(_) => MissesSinceFound(log)
  {
    assert (log + [n])[..|log|] == log;
  }

  lemma {:induction false} ProbeNotesCount(v: Variant, s: Detector, t: Tick, log: seq<Note>)
    requires Sound(v, s) && Explains(log, s)
    ensures var q := Step(v, s, t).0;
            && (q.Agent().Some? ==> q.handshake.presence.misses == MissesSinceFound(log + ProbeNotes(v, s, t)))
            && (s.Agent().Some? && q.Agent().None? && !t.reset ==>
                  s.handshake.exitReported || MissesSinceFound(log + ProbeNotes(v, s, t)) >= MISS_CONFIRMATIONS)
            && (s.Agent().Some? && q.Agent().Some? && q.Agent() != s.Agent() ==>
                  Found(q.Agent().value) in ProbeNotes(v, s, t))
  {
    StepHandshake(v, s, t);
    hide Step, Probes, MissesSinceFound;
    var b := Begin(v, s, t);
    var begun := log + (if t.reset then [WasReset] else []);
    if t.reset {
      MissesAppend(log, WasReset);
    } else {
      assert begun == log;
    }
    if Probes(b, t) {
      if t.Found().Some? {
        MissesAppend(begun, Found(t.Found().value));
        assert log + ProbeNotes(v, s, t) == begun + [Found(t.Found().value)];
      } else if ActionAt(b, t) == ObserveProbe {
        MissesAppend(begun, Missed);
        assert log + ProbeNotes(v, s, t) == begun + [Missed];
      } else {
        assert log + ProbeNotes(v, s, t) == begun;
      }
    } else {
      assert log + ProbeNotes(v, s, t) == begun;
    }
  }

  lemma StepExplains(v: Variant, s: Detector, t: Tick, log: seq<Note>)
    requires Sound(v, s) && Explains(log, s)
    ensures Explains(log + Notes(v, s, t), Step(v, s, t).0)
  {
    ProbeNotesCount(v, s, t, log);
    StepHandshake(v, s, t);
    var q := Step(v, s, t).0;
    var reports := ReportsExit(Step(v, s, t).1);
    var first := log + ProbeNotes(v, s, t);
    if reports {
      MissesAppend(first, Exited(q.Agent()));
      assert log + Notes(v, s, t) == first + [Exited(q.Agent())];
    } else {
      assert log + Notes(v, s, t) == first;
      if q.handshake.exitReported {
        ReportedWithoutProbe(v, s, t);
      }
    }
  }

  /** A tick that ends in the reported state without reporting has done nothing to the identity. */
  lemma ReportedWithoutProbe(v: Variant, s: Detector, t: Tick)
    requires Sound(v, s) && Step(v, s, t).0.handshake.exitReported && !ReportsExit(Step(v, s, t).1)
    ensures s.handshake.exitReported && Step(v, s, t).0.Agent() == s.Agent() && ProbeNotes(v, s, t) == []
  {
    StepHandshake(v, s, t);
    hide Step;
  }

  lemma {:induction false} LogExplains(v: Variant, s: Detector, ticks: seq<Tick>)
    requires Sound(v, s) && Explains([], s)
    ensures Sound(v, RunAll(v, s, ticks)) && Explains(Log(v, s, ticks), RunAll(v, s, ticks))
    decreases |ticks|
  {
    hide Step, Sound, Explains, Notes;
    RunKeepsSound(v, s, ticks);
    if ticks != [] {
      var last := |ticks| - 1;
      LogExplains(v, s, ticks[..last]);
      RunAppend(v, s, ticks[..last], ticks[last]);
      assert ticks[..last] + [ticks[last]] == ticks;
      StepExplains(v, RunAll(v, s, ticks[..last]), ticks[last], Log(v, s, ticks[..last]));
    }
  }

  lemma {:induction false} RunAppend(v: Variant, s: Detector, ticks: seq<Tick>, t: Tick)
    ensures RunAll(v, s, ticks + [t]) == Step(v, RunAll(v, s, ticks), t).0
    decreases |ticks|
  {
    hide Step;
    if ticks == [] {
      assert ticks + [t] == [t] && [t][1..] == [];
      assert RunAll(v, Step(v, s, t).0, []) == Step(v, s, t).0;
    } else {
      assert (ticks + [t])[1..] == ticks[1..] + [t] && (ticks + [t])[0] == ticks[0];
      RunAppend(v, Step(v, s, ticks[0]).0, ticks[1..], t);
    }
  }

  /** Losing an identity: in every run of a new detector, a tick without a reset that leaves the pane
      without its agent comes right after a published exit of that agent, or completes six misses with no
      positive probe between them; and a tick that changes the agent has found the new one. */
  lemma {:induction false} IdentityIsLostOnlyFor(
      v: Variant, restored: Option<Agent>, start: Millis, ticks: seq<Tick>, t: Tick)
    requires !t.reset
    ensures var s := RunAll(v, Start(v, restored, start), ticks);
            var log := Log(v, Start(v, restored, start), ticks);
            var q := Step(v, s, t).0;
            && (s.Agent().Some? && q.Agent().None? ==>
                  || (log != [] && log[|log| - 1] == Exited(s.Agent()))
                  || MissesSinceFound(log + ProbeNotes(v, s, t)) >= MISS_CONFIRMATIONS)
            && (s.Agent().Some? && q.Agent().Some? && q.Agent() != s.Agent() ==>
                  Found(q.Agent().value) in ProbeNotes(v, s, t))
  {
    var fresh_ := Start(v, restored, start);
    assert Sound(v, fresh_) && Explains([], fresh_);
    LogExplains(v, fresh_, ticks);
    hide Step, RunAll, Log, ProbeNotes, Sound;
    ProbeNotesCount(v, RunAll(v, fresh_, ticks), t, Log(v, fresh_, ticks));
  }

  /* ---- the probe budget ---- */

  /** An unidentified, unsuppressed pane whose foreground group `g` was seen by a probe. */
  predicate Unidentified(s: Detector, g: nat) {
    && s.Agent().None? && !s.handshake.pendingClear && !s.handshake.exitReported && s.hasProbe
    && s.lastForeground == Some(g) && !s.releaseActive && !s.pendingRestore
  }

  /** How long output has paused: since the last change, or since the window opened if there was none yet. */
  function Pause(w: Window, now: Millis): Millis {
    if w.lastChange.Some? then Since(now, w.lastChange.value)
    else if w.started.Some? then Since(now, w.started.value)
    else 0
  }

  /** A tick on which nothing is found, the group stays, and output has paused for less than two seconds. */
  predicate KeepsGoing(s: Detector, t: Tick, g: nat) {
    && !t.reset && t.suppressed.None? && t.alive && t.group == Some(g)
    && t.probe.agent.None? && (t.probe.group == None || t.probe.group == Some(g))
    && Pause(s.window, t.now) < IDLE_RESET
  }

  lemma UnidentifiedStep(v: Variant, s: Detector, t: Tick, g: nat)
    requires Unidentified(s, g) && KeepsGoing(s, t, g)
    ensures var q := Step(v, s, t).0;
            && Begin(v, s, t) == s
            && Unidentified(q, g)
            && q.lastCheck == (if Probes(s, t) then t.now else s.lastCheck)
            && (q.window == s.window || q.window == SyncWindow(s.window, None, None, false, t.contentChanged, t.now))
  {
    StepHandshake(v, s, t);
    ProbeStepHandshake(s, t);
    var (p, changed, events) := ProbeStep(s, t);
    ScreenStepHandshake(v, p, t, changed, RegroupedAt(s, t));
    ScreenStepHandshake(v, s, t, false, RegroupedAt(s, t));
    assert Begin(v, s, t) == s;
    hide ProbeStep, ScreenStep, Probes, SyncWindow;
  }

  /** Such a pane is probed exactly inside the window, half a second after the last check in its first part and
      two seconds later on, unless an agent has taken charge of its own lifecycle. */
  lemma UnidentifiedProbes(s: Detector, t: Tick, g: nat)
    requires Unidentified(s, g) && KeepsGoing(s, t, g)
    ensures Probes(s, t) <==>
              && !t.authority && s.window.started.Some?
              && var age := Since(t.now, s.window.started.value);
                 && age <= 8000
                 && Since(t.now, s.lastCheck) >= (if age <= 1500 then 500 else 2000)
  {
  }

  /** The window is not started a second time while output keeps coming. */
  lemma WindowStays(w: Window, changed: bool, now: Millis)
    requires Pause(w, now) < IDLE_RESET
    ensures var u := SyncWindow(w, None, None, false, changed, now);
            && (w.started.Some? ==> u.started == w.started)
            && (w.started.None? && u.started.Some? ==> u.started == Some(now))
  {
  }

  /** The times that `fast` probes in the fast part of a window and `slow` later ones take up. */
  predicate Paced(s: Detector, slack: nat, fast: nat, slow: nat) {
    && (s.window.started.None? ==> fast == 0 && slow == 0)
    && (s.window.started.Some? && fast + slow > 0 ==>
          var started := s.window.started.value;
          && started + slack <= s.lastCheck <= started + ACQUISITION_WINDOW
          && (fast > 0 ==> started + slack + FAST_RECHECK * (fast - 1) + SLOW_RECHECK * slow <= s.lastCheck)
          && (fast == 0 ==> started + FAST_WINDOW + 1 + SLOW_RECHECK * (slow - 1) <= s.lastCheck)
          && (slow == 0 ==> s.lastCheck <= started + FAST_WINDOW)
          && (slow > 0 ==> started + FAST_WINDOW < s.lastCheck)
          && FAST_RECHECK * fast + slack <= FAST_WINDOW + FAST_RECHECK)
  }

  /** Neither the last check nor the opening of the window lies behind the last tick. */
  predicate After(s: Detector, earlier: Millis) {
    s.lastCheck <= earlier && (s.window.started.Some? ==> s.window.started.value <= earlier)
  }

  lemma PacedStep(v: Variant, s: Detector, t: Tick, g: nat, earlier: Millis, slack: nat, fast: nat, slow: nat)
      returns (fast': nat, slow': nat)
    requires Unidentified(s, g) && KeepsGoing(s, t, g) && slack <= 1
    requires After(s, earlier) && earlier + slack <= t.now
    requires Paced(s, slack, fast, slow)
    ensures fast' + slow' == fast + slow + (if Probes(s, t) then 1 else 0)
    ensures Paced(Step(v, s, t).0, slack, fast', slow') && After(Step(v, s, t).0, t.now)
  {
    UnidentifiedStep(v, s, t, g);
    WindowStays(s.window, t.contentChanged, t.now);
    fast', slow' := fast, slow;
    if Probes(s, t) {
      UnidentifiedProbes(s, t, g);
      if Since(t.now, s.window.started.value) <= FAST_WINDOW {
        fast' := fast + 1;
      } else {
        slow' := slow + 1;
      }
    }
    hide Step, Probes, SyncWindow, KeepsGoing, Unidentified;
  }

  /** The probes of a run. */
  function ProbeCount(v: Variant, s: Detector, ticks: seq<Tick>): nat
    decreases |ticks|
  {
    if ticks == [] then 0
    else (if Probes(Begin(v, s, ticks[0]), ticks[0]) then 1 else 0) + ProbeCount(v, Step(v, s, ticks[0]).0, ticks[1..])
  }

  /** A run of ticks that keep going, at instants that advance by at least `slack`. */
  predicate Going(v: Variant, s: Detector, ticks: seq<Tick>, g: nat, earlier: Millis, slack: nat)
    decreases |ticks|
  {
    ticks == [] || (
      && KeepsGoing(s, ticks[0], g) && earlier + slack <= ticks[0].now
      && Going(v, Step(v, s, ticks[0]).0, ticks[1..], g, ticks[0].now, slack))
  }

  lemma PacedBound(s: Detector, slack: nat, fast: nat, slow: nat)
    requires Paced(s, slack, fast, slow) && slack <= 1
    ensures fast + slow <= 7 - slack
  {
  }

  lemma {:induction false} PacedRun(
      v: Variant, s: Detector, ticks: seq<Tick>, g: nat, earlier: Millis, slack: nat, fast: nat, slow: nat)
    requires Unidentified(s, g) && Going(v, s, ticks, g, earlier, slack) && slack <= 1
    requires After(s, earlier) && Paced(s, slack, fast, slow)
    ensures fast + slow + ProbeCount(v, s, ticks) <= 7 - slack
    decreases |ticks|
  {
    hide Step, Probes, Paced, After, KeepsGoing, Unidentified;
    if ticks == [] {
      PacedBound(s, slack, fast, slow);
    } else {
      UnidentifiedStep(v, s, ticks[0], g);
      var fast', slow' := PacedStep(v, s, ticks[0], g, earlier, slack, fast, slow);
      PacedRun(v, Step(v, s, ticks[0]).0, ticks[1..], g, ticks[0].now, slack, fast', slow');
    }
  }

  /** Probe budget: while a probed pane stays unidentified and its group stays put, output that never pauses for
      two seconds causes at most seven further probes, however long it runs and whether or not a window
      is open at first; at most six when every tick comes later than the one before. */
  lemma {:induction false} ProbeBudget(v: Variant, s: Detector, ticks: seq<Tick>, g: nat, earlier: Millis, slack: nat)
    requires Unidentified(s, g) && s.lastCheck <= earlier
             && (s.window.started.Some? ==> s.window.started.value <= earlier)
    requires slack <= 1 && Going(v, s, ticks, g, earlier, slack)
    ensures ProbeCount(v, s, ticks) <= 7 - slack
  {
    assert Paced(s, slack, 0, 0) && After(s, earlier);
    hide Going, ProbeCount, Unidentified;
    PacedRun(v, s, ticks, g, earlier, slack, 0, 0);
  }

  /* ---- holding a working agent's idle screen ---- */

  /** A pending idle screen has been confirmed fewer times than needed. */
  predicate HoldsFew(p: PendingIdle, held: nat) {
    held == (if p.startedAt.Some? then p.confirmations + 1 else 0) && p.confirmations < PENDING_IDLE_CONFIRMATIONS
  }

  /** A step from working to a plain idle screen is held back at most three times in a row. */
  lemma HoldIsBounded(p: PendingIdle, held: nat, previous: Shown, next: Shown,
      agentChanged: bool, exited: bool, now: Millis)
    requires HoldsFew(p, held)
    ensures var (q, holds) := HoldIdle(p, previous, next, agentChanged, exited, now);
            HoldsFew(q, if holds then held + 1 else 0) && (holds ==> held + 1 <= PENDING_IDLE_CONFIRMATIONS)
  {
  }
}
