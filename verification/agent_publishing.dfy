/** What the detection loop publishes: which screens, when, and what readers of the events know. */
module AgentPublishing {
  import opened Options
  import opened AgentDetection
  import opened AgentDetectionRuns

  /* ---- one tick ---- */

  /** The tick up to its probe: state, whether the agent changed, events so far. */
  function Probed(v: Variant, s: Detector, t: Tick): (Detector, bool, seq<Event>) {
    var b := Begin(v, s, t);
    if Probes(b, t) then ProbeStep(b, t) else (b, false, [])
  }

  /** The screen is read and shows a state: no agent is in charge of its own lifecycle, none has just started,
      the content is not the one an idle agent was last read with, and no update is to be skipped. */
  predicate ReadsScreen(p: Detector, t: Tick, changed: bool) {
    && !ExitDue(p) && !t.authority && p.graceUntil.None? && t.screen.Some?
    && (p.Agent().Some? ==> !t.skipUpdate)
    && !(p.Agent().Some? && p.shown.state == Idle && p.pendingIdle.startedAt.None? && !changed
         && p.scannedSeq == Some(t.contentSeq))
  }

  /** A signal counts only together with its state. */
  predicate IsTied(screen: Shown, next: Shown) {
    && next.state == screen.state
    && (next.idle <==> screen.idle && screen.state == Idle)
    && (next.blocker <==> screen.blocker && screen.state == Blocked)
    && (next.working <==> screen.working && screen.state == Working)
  }

  /** A step from working to idle that nothing on the screen confirms, seen for the first time, or fewer
      than three times since and for less than 0.7 seconds. */
  predicate Confirming(p: Detector, next: Shown, changed: bool, now: Millis) {
    && p.shown.state == Working && next.state == Idle && !next.idle && !next.blocker && !changed
    && (p.pendingIdle.startedAt.Some? ==>
          Since(now, p.pendingIdle.startedAt.value) < 700 && p.pendingIdle.confirmations + 1 < 3)
  }

  /** A blocker stays on the screen and was last published at least 0.8 seconds ago, or never. */
  predicate BlockerIsDue(p: Detector, next: Shown, now: Millis) {
    && next.blocker && p.shown.blocker
    && (p.refreshed.Some? ==> Since(now, p.refreshed.value) >= 800)
  }

  /** The screen is worth an event. */
  predicate IsPublished(p: Detector, next: Shown, changed: bool, now: Millis) {
    !Confirming(p, next, changed, now) && (next != p.shown || changed || BlockerIsDue(p, next, now))
  }

  predicate ShowsNothingNew(p: Detector, q: Detector, early: seq<Event>, events: seq<Event>) {
    events == early && q.shown == p.shown
  }

  /** Publishing, on whole ticks: a screen that is read is published, with its state and the signals tied to it,
      if and only if it is not still being confirmed, and differs from what was shown, or the agent
      changed, or a blocker is due to be repeated. Otherwise, and when no screen is read, nothing changes. */
  lemma TickPublishes(v: Variant, s: Detector, t: Tick) returns (next: Shown)
    requires !ExitDue(Probed(v, s, t).0)
    ensures t.screen.Some? ==> IsTied(t.screen.value, next)
    ensures var (p, changed, early) := Probed(v, s, t); var (q, events) := Step(v, s, t);
            if ReadsScreen(p, t, changed) && IsPublished(p, next, changed, t.now) then
              && q.shown == next && q.Agent() == p.Agent()
              && events == early + [Published(p.Agent(), next.state, next.blocker, next.working, false)]
            else ShowsNothingNew(p, q, early, events)
  {
    var (p, changed, early) := Probed(v, s, t);
    var regrouped := RegroupedAt(Begin(v, s, t), t);
    next := if t.screen.Some? then Stabilized(t.screen.value) else p.shown;
    ScreenPublishes(v, p, t, changed, regrouped, next);
    StepIsProbedThenScreen(v, s, t);
    hide Step, Probed, ScreenStep, ReadsScreen, IsPublished;
    var more := ScreenStep(v, p, t, changed, regrouped).1;
    assert early + [] == early;
  }

  lemma StepIsProbedThenScreen(v: Variant, s: Detector, t: Tick)
    ensures var (p, changed, early) := Probed(v, s, t);
            var (q, more) := ScreenStep(v, p, t, changed, RegroupedAt(Begin(v, s, t), t));
            Step(v, s, t) == (q, early + more)
  {
    hide ProbeStep, ScreenStep, Probes, Begin;
    var b := Begin(v, s, t);
    if !Probes(b, t) {
      var more := ScreenStep(v, b, t, false, RegroupedAt(b, t)).1;
      assert [] + more == more;
    }
  }

  lemma ScreenPublishes(v: Variant, p: Detector, t: Tick, changed: bool, regrouped: bool, next: Shown)
    requires !ExitDue(p) && (t.screen.Some? ==> next == Stabilized(t.screen.value))
    ensures var (q, more) := ScreenStep(v, p, t, changed, regrouped);
            if ReadsScreen(p, t, changed) && IsPublished(p, next, changed, t.now) then
              && q.shown == next && q.Agent() == p.Agent()
              && more == [Published(p.Agent(), next.state, next.blocker, next.working, false)]
            else more == [] && q.shown == p.shown
  {
    hide ReadStep;
    if !t.authority && p.graceUntil.None? && !SkipsScan(p, t, changed) {
      ReadPublishes(v, p, t, changed, regrouped, next);
    }
    hide IsPublished;
  }

  lemma ReadPublishes(v: Variant, p: Detector, t: Tick, changed: bool, regrouped: bool, next: Shown)
    requires !ExitDue(p) && (t.screen.Some? ==> next == Stabilized(t.screen.value))
    ensures var (q, more) := ReadStep(v, p, t, changed, regrouped);
            if t.screen.Some? && !(p.Agent().Some? && t.skipUpdate) && IsPublished(p, next, changed, t.now) then
              && q.shown == next && q.Agent() == p.Agent()
              && more == [Published(p.Agent(), next.state, next.blocker, next.working, false)]
            else more == [] && q.shown == p.shown
  {
    hide PublishStep, SyncWindow, IsPublished;
    var w := p.(scannedSeq := if p.Agent().Some? then Some(t.contentSeq) else None,
                window := SyncWindow(p.window, p.Agent(), t.suppressed, regrouped, t.contentChanged, t.now));
    if t.screen.Some? {
      DetectionPublishes(w, t, changed, t.screen.value, next);
      SameDecision(p, w, next, changed, t.now);
    }
  }

  lemma SameDecision(p: Detector, w: Detector, next: Shown, changed: bool, now: Millis)
    requires w.shown == p.shown && w.pendingIdle == p.pendingIdle && w.refreshed == p.refreshed
    ensures IsPublished(w, next, changed, now) <==> IsPublished(p, next, changed, now)
  {
  }

  lemma DetectionPublishes(w: Detector, t: Tick, changed: bool, screen: Shown, next: Shown)
    requires !ExitDue(w) && next == Stabilized(screen)
    ensures var (q, more) := PublishStep(w, t, changed, screen);
            if IsPublished(w, next, changed, t.now) then
              && q.shown == next && q.Agent() == w.Agent()
              && more == [Published(w.Agent(), next.state, next.blocker, next.working, false)]
            else more == [] && q.shown == w.shown
  {
  }

  /** What a reading leaves behind: the content of an agent's screen counts as read, and the time of an event with
      a blocker or activity is kept, so that the same content is not read again while idle and the same
      blocker not published again too soon. */
  lemma TickRemembers(v: Variant, s: Detector, t: Tick)
    requires ReadsScreen(Probed(v, s, t).0, t, Probed(v, s, t).1)
    ensures var (p, changed, early) := Probed(v, s, t); var (q, events) := Step(v, s, t);
            && q.scannedSeq == (if p.Agent().Some? then Some(t.contentSeq) else None)
            && q.refreshed == (if events == early then p.refreshed
                               else if q.shown.blocker || q.shown.working then Some(t.now) else None)
  {
    var (p, changed, early) := Probed(v, s, t);
    StepIsProbedThenScreen(v, s, t);
    ScreenRemembers(v, p, t, changed, RegroupedAt(Begin(v, s, t), t));
    hide Step, Probed, ScreenStep, ReadsScreen;
    assert early + [] == early;
  }

  lemma ScreenRemembers(v: Variant, p: Detector, t: Tick, changed: bool, regrouped: bool)
    requires ReadsScreen(p, t, changed)
    ensures var (q, more) := ScreenStep(v, p, t, changed, regrouped);
            && q.scannedSeq == (if p.Agent().Some? then Some(t.contentSeq) else None)
            && q.refreshed == (if more == [] then p.refreshed
                               else if q.shown.blocker || q.shown.working then Some(t.now) else None)
  {
    hide SyncWindow, HoldIdle, WorthPublishing;
  }

  /** An exit that is due is published as idle, or swallowed with the screen update. */
  lemma ExitIsShown(v: Variant, s: Detector, t: Tick)
    requires ExitDue(Probed(v, s, t).0)
    ensures var (p, changed, early) := Probed(v, s, t); var (q, events) := Step(v, s, t);
            if v.Plain? || !t.skipUpdate then
              && q.shown == Shown(Idle, true, false, false)
              && events == early + [Published(p.Agent(), Idle, false, false, true)]
            else ShowsNothingNew(p, q, early, events)
  {
    var (p, changed, early) := Probed(v, s, t);
    StepIsProbedThenScreen(v, s, t);
    ExitScreen(v, p, t, changed, RegroupedAt(Begin(v, s, t), t));
    hide Step, Probed, ScreenStep;
    assert early + [] == early;
  }

  lemma ExitScreen(v: Variant, p: Detector, t: Tick, changed: bool, regrouped: bool)
    requires ExitDue(p)
    ensures var (q, more) := ScreenStep(v, p, t, changed, regrouped);
            if v.Plain? || !t.skipUpdate then
              && q.shown == Shown(Idle, true, false, false)
              && more == [Published(p.Agent(), Idle, false, false, true)]
            else more == [] && q.shown == p.shown
  {
    hide ReadStep;
    var g :=
      if p.graceUntil.None? then p
      else p.(pendingIdle := NOT_PENDING, graceUntil := None,
              scannedSeq := if v.Spawned? then None else p.scannedSeq);
    ExitRead(v, g, t, changed, regrouped);
  }

  lemma ExitRead(v: Variant, p: Detector, t: Tick, changed: bool, regrouped: bool)
    requires ExitDue(p)
    ensures var (q, more) := ReadStep(v, p, t, changed, regrouped);
            if v.Plain? || !t.skipUpdate then
              && q.shown == Shown(Idle, true, false, false)
              && more == [Published(p.Agent(), Idle, false, false, true)]
            else more == [] && q.shown == p.shown
  {
    hide SyncWindow, PublishStep;
    var w := p.(scannedSeq := if p.Agent().Some? then Some(t.contentSeq) else None,
                window := SyncWindow(p.window, p.Agent(), t.suppressed, regrouped, t.contentChanged, t.now));
    ExitPublishes(w, t, changed);
  }

  lemma ExitPublishes(w: Detector, t: Tick, changed: bool)
    requires ExitDue(w)
    ensures var (q, more) := PublishStep(w, t, changed, Shown(Idle, true, false, false));
            && q.shown == Shown(Idle, true, false, false)
            && more == [Published(w.Agent(), Idle, false, false, true)]
  {
  }

  /** What precedes the screen: a changed agent is announced as idle and left alone for three seconds; without
      a change there is nothing to announce. */
  lemma ChangeIsAnnounced(v: Variant, s: Detector, t: Tick)
    ensures var b := Begin(v, s, t); var (p, changed, early) := Probed(v, s, t);
            && (!changed ==> early == [] && p.shown == b.shown && p.graceUntil == b.graceUntil)
            && (changed && p.Agent().Some? ==>
                  && early == [Published(p.Agent(), Idle, false, false, false)]
                  && p.shown == Shown(Idle, true, false, false) && p.graceUntil == Some(t.now + 3000))
            && (changed && p.Agent().None? ==> early == [] && p.shown == b.shown && p.graceUntil.None?)
    ensures Probed(v, s, t).1 ==> !ExitDue(Probed(v, s, t).0)
    ensures !t.reset ==> Begin(v, s, t).shown == s.shown && Begin(v, s, t).Agent() == s.Agent()
  {
    hide Probes, TrackedGroup;
  }

  /** When the agent counts as changed: if it is another one, or none, or came back after its reported exit. */
  lemma ChangeIsExact(v: Variant, s: Detector, t: Tick)
    ensures var b := Begin(v, s, t); var (p, changed, early) := Probed(v, s, t);
            changed <==>
              || p.Agent() != b.Agent()
              || (Probes(b, t) && b.handshake.exitReported && b.Agent().Some? && t.Found() == b.Agent())
  {
    hide Probes, TrackedGroup, Begin;
  }

  /** While the three seconds last and no exit is due, no screen is read. */
  lemma GraceIsQuiet(v: Variant, s: Detector, t: Tick)
    requires !ExitDue(Probed(v, s, t).0) && !Probed(v, s, t).1 && Probed(v, s, t).0.graceUntil.Some?
    ensures var (q, events) := Step(v, s, t); var grace := Probed(v, s, t).0.graceUntil;
            events == [] && q.graceUntil == if t.authority || t.now < grace.value then grace else None
  {
    ChangeIsAnnounced(v, s, t);
    StepIsProbedThenScreen(v, s, t);
    hide Step, Probed, ReadStep;
    var none: seq<Event> := [];
    assert none + none == none;
  }

  /** Nothing has been read of an agent that was just announced. */
  predicate GraceIsUnread(s: Detector) { s.graceUntil.Some? ==> s.scannedSeq.None? }

  lemma StepKeepsUnread(v: Variant, s: Detector, t: Tick)
    requires GraceIsUnread(s)
    ensures GraceIsUnread(Probed(v, s, t).0) && GraceIsUnread(Step(v, s, t).0)
  {
    hide Probes, Step;
    ProbedKeepsUnread(v, s, t);
    ScreenKeeps(v, Probed(v, s, t).0, t, Probed(v, s, t).1, RegroupedAt(Begin(v, s, t), t));
    hide Probed, ScreenStep;
    StepIsProbedThenScreen(v, s, t);
  }

  lemma ProbedKeepsUnread(v: Variant, s: Detector, t: Tick)
    requires GraceIsUnread(s)
    ensures GraceIsUnread(Probed(v, s, t).0)
  {
    hide Probes, ApplyAction, ActionAt, TrackedGroup;
  }

  lemma ScreenKeeps(v: Variant, p: Detector, t: Tick, changed: bool, regrouped: bool)
    ensures var q := ScreenStep(v, p, t, changed, regrouped).0;
            && q.releaseActive == p.releaseActive
            && (GraceIsUnread(p) ==> GraceIsUnread(q))
            && (GraceIsUnread(p) && p.graceUntil.Some? && p.graceUntil.value <= t.now && !t.authority && !ExitDue(p) ==>
                  q.graceUntil.None? && q.scannedSeq.None?)
  {
    hide SkipsScan, ExitDue, ReadStep;
    var resumed := if p.graceUntil.None? then p
                   else p.(pendingIdle := NOT_PENDING, graceUntil := None,
                           scannedSeq := if v.Spawned? then None else p.scannedSeq);
    ReadKeeps(v, resumed, t, changed, regrouped);
  }

  lemma ReadKeeps(v: Variant, s: Detector, t: Tick, changed: bool, regrouped: bool)
    ensures var q := ReadStep(v, s, t, changed, regrouped).0;
            q.releaseActive == s.releaseActive && q.graceUntil == s.graceUntil
  {
    hide SyncWindow, HoldIdle, WorthPublishing, ExitDue;
  }

  lemma UnchangedProbe(v: Variant, s: Detector, t: Tick)
    requires !t.reset && !Probed(v, s, t).1
    ensures Probed(v, s, t).0.graceUntil == s.graceUntil && Probed(v, s, t).0.scannedSeq == s.scannedSeq
  {
    hide Probes, ApplyAction, ActionAt, TrackedGroup;
  }

  lemma {:induction false} RunKeepsUnread(v: Variant, s: Detector, ticks: seq<Tick>)
    requires GraceIsUnread(s)
    ensures GraceIsUnread(RunAll(v, s, ticks))
    decreases |ticks|
  {
    hide Step;
    if ticks != [] {
      StepKeepsUnread(v, s, ticks[0]);
      RunKeepsUnread(v, Step(v, s, ticks[0]).0, ticks[1..]);
    }
  }

  /** After any run: behind its three seconds an agent's screen is read, also when the content has stayed the same
      since before the agent was found. */
  lemma {:induction false} GraceEndsWithReading(
      v: Variant, restored: Option<Agent>, start: Millis, ticks: seq<Tick>, last: Tick, t: Tick)
    requires var p := Probed(v, RunAll(v, Start(v, restored, start), ticks), last).0;
             p.graceUntil.Some? && p.graceUntil.value <= last.now && !last.authority && !ExitDue(p)
    requires var (p, changed, early) := Probed(v, Step(v, RunAll(v, Start(v, restored, start), ticks), last).0, t);
             !changed && !ExitDue(p) && !t.reset && !t.authority && t.screen.Some? && !t.skipUpdate
    ensures var (p, changed, early) := Probed(v, Step(v, RunAll(v, Start(v, restored, start), ticks), last).0, t);
            ReadsScreen(p, t, changed)
  {
    hide Probed, Step, ScreenStep, ExitDue;
    var s := RunAll(v, Start(v, restored, start), ticks);
    RunKeepsUnread(v, Start(v, restored, start), ticks);
    StepKeepsUnread(v, s, last);
    ScreenKeeps(v, Probed(v, s, last).0, last, Probed(v, s, last).1, RegroupedAt(Begin(v, s, last), last));
    StepIsProbedThenScreen(v, s, last);
    UnchangedProbe(v, Step(v, s, last).0, t);
  }

  /* ---- runs ---- */

  /** The events of a run, in order. */
  function Events(v: Variant, s: Detector, ticks: seq<Tick>): seq<Event>
    decreases |ticks|
  {
    if ticks == [] then []
    else
      var (q, events) := Step(v, s, ticks[0]);
      events + Events(v, q, ticks[1..])
  }

  /** The last event tells what is shown. */
  predicate Tells(events: seq<Event>, shown: Shown)
    requires events != []
  {
    var e := events[|events| - 1];
    e.state == shown.state && e.blocker == shown.blocker && e.working == shown.working
  }

  lemma StepTells(v: Variant, s: Detector, t: Tick)
    requires !t.reset
    ensures var (q, events) := Step(v, s, t);
            if events == [] then q.shown == s.shown else Tells(events, q.shown)
  {
    ChangeIsAnnounced(v, s, t);
    if ExitDue(Probed(v, s, t).0) {
      ExitIsShown(v, s, t);
    } else {
      var next := TickPublishes(v, s, t);
    }
    hide Step, Probed, Begin, ReadsScreen, IsPublished;
  }

  /** Over every run without a reset, the last published event tells the state, the blocker and the activity that
      are shown; without an event they are those of the start. Readers of the events are never behind. */
  lemma {:induction false} EventsTellShown(v: Variant, s: Detector, ticks: seq<Tick>)
    requires forall i :: 0 <= i < |ticks| ==> !ticks[i].reset
    ensures var q := RunAll(v, s, ticks); var events := Events(v, s, ticks);
            if events == [] then q.shown == s.shown else Tells(events, q.shown)
    decreases |ticks|
  {
    hide Step, Tells;
    if ticks != [] {
      StepTells(v, s, ticks[0]);
      var (q, first) := Step(v, s, ticks[0]);
      EventsTellShown(v, q, ticks[1..]);
      var rest := Events(v, q, ticks[1..]);
      if rest == [] {
        assert first + rest == first;
      } else {
        LastTells(first, rest, RunAll(v, q, ticks[1..]).shown);
      }
    }
  }

  lemma LastTells(a: seq<Event>, b: seq<Event>, shown: Shown)
    requires b != [] && Tells(b, shown)
    ensures Tells(a + b, shown)
  {
  }

  /* ---- from working to idle ---- */

  predicate PlainIdle(screen: Shown) { screen.state == Idle && !screen.idle && !screen.blocker }

  /** The tick reads a plain idle screen of an agent that stays. */
  predicate ReadsPlainIdle(v: Variant, s: Detector, t: Tick) {
    var (p, changed, early) := Probed(v, s, t);
    !t.reset && !changed && ReadsScreen(p, t, changed) && PlainIdle(t.screen.value)
  }

  /** How often a working agent's plain idle screen has been held back. */
  function Held(p: PendingIdle): nat { if p.startedAt.Some? then p.confirmations + 1 else 0 }

  lemma PlainIdleStep(v: Variant, s: Detector, t: Tick)
    requires s.shown.state == Working && ReadsPlainIdle(v, s, t) && s.pendingIdle.confirmations < 3
    ensures var q := Step(v, s, t).0;
            || q.shown.state == Idle
            || (q.shown.state == Working && q.pendingIdle.confirmations < 3
                && Held(q.pendingIdle) == Held(s.pendingIdle) + 1 <= 3)
  {
    StepIsProbedThenScreen(v, s, t);
    ChangeIsAnnounced(v, s, t);
    ProbeKeepsPending(v, s, t);
    var (p, changed, early) := Probed(v, s, t);
    hide Step, Probed, Begin;
    PlainIdleScreen(v, p, t, changed, RegroupedAt(Begin(v, s, t), t));
    hide ScreenStep;
  }

  lemma ProbeKeepsPending(v: Variant, s: Detector, t: Tick)
    requires !t.reset && !Probed(v, s, t).1
    ensures Probed(v, s, t).0.pendingIdle == s.pendingIdle
  {
    hide Probes, TrackedGroup, ApplyAction;
  }

  lemma PlainIdleScreen(v: Variant, p: Detector, t: Tick, changed: bool, regrouped: bool)
    requires p.shown.state == Working && ReadsScreen(p, t, changed) && PlainIdle(t.screen.value) && !changed
    requires p.pendingIdle.confirmations < 3
    ensures var q := ScreenStep(v, p, t, changed, regrouped).0;
            || q.shown.state == Idle
            || (q.shown.state == Working && q.pendingIdle.confirmations < 3
                && Held(q.pendingIdle) == Held(p.pendingIdle) + 1 <= 3)
  {
    hide SyncWindow;
  }

  /** Ticks that read a plain idle screen for as long as the agent is shown as working. */
  predicate KeepsReadingIdle(v: Variant, s: Detector, ticks: seq<Tick>)
    decreases |ticks|
  {
    ticks == [] || s.shown.state != Working
    || (ReadsPlainIdle(v, s, ticks[0]) && KeepsReadingIdle(v, Step(v, s, ticks[0]).0, ticks[1..]))
  }

  /** An agent that has gone idle is shown as idle at the fourth reading at the latest, however fast the readings
      come. */
  lemma {:induction false} IdleIsShown(v: Variant, s: Detector, ticks: seq<Tick>) returns (n: nat)
    requires s.shown.state == Working && s.pendingIdle.confirmations < 3
    requires KeepsReadingIdle(v, s, ticks) && |ticks| + Held(s.pendingIdle) >= 4
    ensures 1 <= n <= |ticks| && n + Held(s.pendingIdle) <= 4
    ensures RunAll(v, s, ticks[..n]).shown.state == Idle
    decreases |ticks|
  {
    hide Step, ReadsPlainIdle;
    if ticks == [] {
      HeldIsFew(s.pendingIdle);
    }
    PlainIdleStep(v, s, ticks[0]);
    var q := Step(v, s, ticks[0]).0;
    if q.shown.state == Idle {
      n := 1;
      assert ticks[..1] == [ticks[0]] && [ticks[0]][1..] == [];
      assert RunAll(v, s, [ticks[0]]) == RunAll(v, q, []) == q;
    } else {
      var m := IdleIsShown(v, q, ticks[1..]);
      n := m + 1;
      assert ticks[..n][1..] == ticks[1..][..m] && ticks[..n][0] == ticks[0];
    }
  }

  lemma HeldIsFew(p: PendingIdle)
    requires p.confirmations < 3
    ensures Held(p) <= 3
  {
  }

  /* ---- probing ---- */

  /** Output opens the acquisition window: when the screen of an unidentified pane is read with new content, the
      window is open afterwards, and starts at this tick if there was none or it had run out in silence. */
  lemma OutputOpensWindow(v: Variant, s: Detector, t: Tick)
    requires !t.reset && t.suppressed.None? && !s.releaseActive && s.Agent().None? && s.graceUntil.None?
    requires !Probes(Begin(v, s, t), t) && !t.authority && t.contentChanged
    requires !GroupChanged(t.Foreground(), s.lastForeground)
    ensures var w := Step(v, s, t).0.window; var u := s.window;
            && w.started.Some? && w.lastChange == Some(t.now)
            && w.started.value
               == if u.started.None?
                     || (Since(t.now, u.started.value) > 8000
                         && (u.lastChange.Some? ==> Since(t.now, u.lastChange.value) >= 2000))
                  then t.now else u.started.value
  {
    StepIsProbedThenScreen(v, s, t);
    assert Begin(v, s, t) == s;
    var (p, changed, early) := Probed(v, s, t);
    hide Step, Probed, Probes;
    UnidentifiedScreen(v, s, t, false, false);
    hide ScreenStep;
  }

  lemma UnidentifiedScreen(v: Variant, p: Detector, t: Tick, changed: bool, regrouped: bool)
    requires p.Agent().None? && p.graceUntil.None? && !t.authority
    ensures ScreenStep(v, p, t, changed, regrouped).0.window
            == SyncWindow(p.window, None, t.suppressed, regrouped, t.contentChanged, t.now)
  {
    hide SyncWindow, WorthPublishing, HoldIdle;
  }

  /** An identified pane without an open window is probed again when its foreground group changes or after five
      seconds, and not at all while an agent in charge of its own lifecycle keeps the foreground. */
  lemma IdentifiedProbes(s: Detector, t: Tick)
    requires s.Agent().Some? && t.alive && t.suppressed.None? && s.hasProbe && s.window.started.None?
    requires !s.handshake.pendingClear && !s.pendingRestore
    ensures Probes(s, t) <==>
              if t.group != s.lastForeground then true
              else !(t.authority && t.group.Some?) && Since(t.now, s.lastCheck) >= 5000
  {
  }

  /** The other half of losing an identity: six misses in a row do lose it. A probe that finds nothing, in front
      of something else than the pane's shell, loses the agent if and only if it is the sixth miss. */
  lemma SixthMissLoses(v: Variant, s: Detector, t: Tick)
    requires Sound(v, s) && !t.reset && Probes(Begin(v, s, t), t)
    requires s.Agent().Some? && !s.handshake.exitReported && t.Found().None? && !t.probe.isShell
    ensures var q := Step(v, s, t).0;
            && (q.Agent().None? <==> s.handshake.presence.misses + 1 >= 6)
            && (q.Agent().Some? ==> q.Agent() == s.Agent()
                                    && q.handshake.presence.misses == s.handshake.presence.misses + 1)
  {
    StepHandshake(v, s, t);
    hide Step, Probes;
  }

  /** A pane without a foreground group is probed again every thirty seconds. */
  lemma MissingGroupProbes(s: Detector, t: Tick)
    requires s.Agent().None? && t.alive && t.suppressed.None? && s.hasProbe && s.window.started.None?
    requires !s.handshake.pendingClear && !s.pendingRestore && t.group.None?
    ensures Probes(s, t) <==> s.lastForeground.Some? || Since(t.now, s.lastCheck) >= 30000
  {
  }

  /** A new foreground group in which nothing is found opens the window: something may be about to start. */
  lemma NewGroupOpensWindow(v: Variant, s: Detector, t: Tick)
    requires !t.reset && !s.releaseActive && t.suppressed.None? && t.alive && !t.authority
    requires s.Agent().None? && !s.handshake.pendingClear && !s.handshake.exitReported
    requires s.hasProbe && s.graceUntil.None?
    requires t.probe.agent.None? && t.group != s.lastForeground
    ensures Probes(Begin(v, s, t), t)
    ensures Step(v, s, t).0.window.started == Some(t.now)
  {
    assert Begin(v, s, t) == s;
    StepIsProbedThenScreen(v, s, t);
    NewGroupProbed(v, s, t);
    var (p, changed, early) := Probed(v, s, t);
    hide Step, Probed, Probes, Begin;
    UnidentifiedScreen(v, p, t, changed, RegroupedAt(s, t));
    hide ScreenStep;
  }

  lemma NewGroupProbed(v: Variant, s: Detector, t: Tick)
    requires Begin(v, s, t) == s && Probes(s, t) && t.suppressed.None? && t.alive
    requires s.Agent().None? && s.hasProbe && s.graceUntil.None? && t.probe.agent.None? && t.group != s.lastForeground
    ensures var (p, changed, early) := Probed(v, s, t);
            p.window.started == Some(t.now) && p.Agent().None? && p.graceUntil.None? && !changed && RegroupedAt(s, t)
  {
    hide Probes, TrackedGroup;
  }

  /** When a release has run out, the pane is probed at once: the agent may still be there. */
  lemma ReleaseEndProbes(v: Variant, s: Detector, before: Tick, t: Tick)
    requires before.suppressed.Some? && t.suppressed.None? && !t.reset && t.alive
    requires Step(v, s, before).0.Agent().None?
    ensures var b := Begin(v, Step(v, s, before).0, t); Probes(b, t) && b.window == NO_WINDOW
  {
    ReleaseIsRemembered(v, s, before);
    hide Step;
  }

  lemma ReleaseIsRemembered(v: Variant, s: Detector, t: Tick)
    ensures Step(v, s, t).0.releaseActive == t.suppressed.Some?
  {
    hide Probes, Step, ApplyAction, ActionAt, TrackedGroup;
    ScreenKeeps(v, Probed(v, s, t).0, t, Probed(v, s, t).1, RegroupedAt(Begin(v, s, t), t));
    hide ScreenStep;
    StepIsProbedThenScreen(v, s, t);
  }

  /** An agent that comes back after its reported exit is announced once more, and keeps its identity. */
  lemma ComebackIsAnnounced(v: Variant, s: Detector, t: Tick)
    requires Sound(v, s) && s.handshake.exitReported && !t.reset && t.alive && t.Found() == s.Agent()
    ensures var (q, events) := Step(v, s, t);
            q.Agent() == s.Agent() && |events| >= 1 && events[0] == Published(s.Agent(), Idle, false, false, false)
  {
    ReportedExitEnds(v, s, t);
    ChangeIsAnnounced(v, s, t);
    StepIsProbedThenScreen(v, s, t);
    ComebackChanges(v, s, t);
    hide Step, Probed, ScreenStep, Probes, Sound;
  }

  lemma ComebackChanges(v: Variant, s: Detector, t: Tick)
    requires Sound(v, s) && s.handshake.exitReported && !t.reset && t.Found() == s.Agent() && Probes(Begin(v, s, t), t)
    ensures Probed(v, s, t).1 && Probed(v, s, t).0.Agent() == s.Agent()
  {
    hide Probes, TrackedGroup;
  }

  /** Any other agent that a probe finds is announced too, also while one is being released. */
  lemma NewAgentIsAnnounced(v: Variant, s: Detector, t: Tick)
    requires !t.reset && Probes(Begin(v, s, t), t)
    requires t.probe.agent.Some? && t.probe.agent != t.suppressed && t.probe.agent != s.Agent()
    ensures var (q, events) := Step(v, s, t);
            |events| >= 1 && events[0] == Published(t.probe.agent, Idle, false, false, false)
  {
    ChangeIsAnnounced(v, s, t);
    StepIsProbedThenScreen(v, s, t);
    NewAgentChanges(v, s, t);
    hide Step, Probed, ScreenStep, Probes;
  }

  lemma NewAgentChanges(v: Variant, s: Detector, t: Tick)
    requires !t.reset && Probes(Begin(v, s, t), t) && t.Found().Some? && t.Found() != s.Agent()
    ensures Probed(v, s, t).1 && Probed(v, s, t).0.Agent() == t.Found()
  {
    hide Probes;
  }

  /** While an agent is being released the process is probed for something else only: once, and when the foreground
      group changes. */
  lemma ReleaseProbes(s: Detector, t: Tick)
    requires t.suppressed.Some? && t.alive && !s.handshake.pendingClear && !s.pendingRestore
    ensures Probes(s, t) <==> !s.hasProbe || t.group != s.lastForeground
  {
  }

  /** The agent that is being released is not found. */
  lemma ReleasedIsNotFound(v: Variant, s: Detector, t: Tick)
    requires !t.reset && s.Agent().None? && t.suppressed.Some? && t.probe.agent == t.suppressed
    ensures Step(v, s, t).0.Agent().None?
  {
    StepHandshake(v, s, t);
    hide Step, Probes;
  }

  /** An agent restored from a session is looked for at the first tick that has a process. */
  lemma RestoredIsProbed(agent: Agent, start: Millis, t: Tick)
    requires !t.reset && t.alive
    ensures Probes(Begin(Spawned, Start(Spawned, Some(agent), start), t), t)
  {
  }

  /** A detector starts without an agent and an unknown state, or behind a spawned pane idle with the restored
      agent, if any. */
  lemma StartsAsTold(restored: Option<Agent>, start: Millis)
    ensures Start(Plain, restored, start).Agent().None?
    ensures Start(Plain, restored, start).shown == Shown(Unknown, false, false, false)
    ensures Start(Spawned, restored, start).Agent() == restored
    ensures Start(Spawned, restored, start).shown == Shown(Idle, restored.Some?, false, false)
  {
  }

  /** A reset forgets all: two detectors that are reset behave alike ever after, except that behind spawned panes
      the time of the last check is kept. */
  lemma ResetForgets(v: Variant, s: Detector, s': Detector, t: Tick)
    requires t.reset && (v.Spawned? ==> s.lastCheck == s'.lastCheck)
    ensures Step(v, s, t) == Step(v, s', t)
    ensures var b := Begin(v, s, t);
            && b.Agent().None? && !b.hasProbe && b.window == NO_WINDOW && b.shown == Shown(Unknown, false, false, false)
            && b.lastCheck == if v.Plain? then t.now else s.lastCheck
  {
    hide ProbeStep, ScreenStep, Probes;
  }

  /** What later probes go by: the time of this one, and the foreground group, as far as it was seen; and an agent found
      closes the window. */
  lemma ProbeIsRemembered(v: Variant, s: Detector, t: Tick)
    requires Probes(Begin(v, s, t), t)
    ensures var (p, changed, early) := Probed(v, s, t);
            && p.lastCheck == t.now && p.hasProbe && !p.pendingRestore
            && p.lastForeground == (if t.group.Some? && t.probe.group.Some? then t.probe.group else t.group)
            && (t.Found().Some? ==> p.window == NO_WINDOW)
  {
    hide ApplyAction, ShellAction;
  }

  /** Whatever interrupts the readings of an idle screen starts its confirmation anew: an agent in charge, a grace
      period, a skipped update, or a screen that shows no state. */
  lemma InterruptionsStartAnew(v: Variant, s: Detector, t: Tick)
    requires var p := Probed(v, s, t).0;
             && !ExitDue(p)
             && (t.authority || p.graceUntil.Some?
                 || (!SkipsScan(p, t, Probed(v, s, t).1)
                     && ((p.Agent().Some? && t.skipUpdate) || t.screen.None?)))
    ensures Step(v, s, t).0.pendingIdle == NOT_PENDING
  {
    StepIsProbedThenScreen(v, s, t);
    hide Step, Probed, SyncWindow, PublishStep;
  }
}
