/** Cutting the input into pushes differently: when it cannot matter, and exactly when it does. */
module FramerScheduling {
  import opened Options
  import opened Bytes
  import opened Utf8
  import opened InputSequences
  import opened InputFramer

  /* ---- every reachable state is valid ---- */

  lemma StepKeepsValid(r: Recognizers, s: State)
    requires s.Valid()
    ensures Step(r, s).state.Valid()
  {
    hide StepExtract, StepDiscard, OrphanLen, IsUnfinishedOrphan;
    StepExtractKeepsValid(r, s);
    StepExtractKeepsValid(r, s.(escapeFlushed := false));
    if s.discard.Some? {
      StepDiscardKeepsValid(s);
    }
  }

  lemma StepExtractKeepsValid(r: Recognizers, s: State)
    requires s.Valid()
    ensures StepExtract(r, s).state.Valid()
    ensures StepExtract(r, s).state.discard == s.discard
    ensures StepExtract(r, s).state.escapeFlushed == s.escapeFlushed
    ensures StepExtract(r, s).Next? ==> |StepExtract(r, s).state.buffer| < |s.buffer|
  {
    hide ExtractOne;
  }

  lemma StepDiscardKeepsValid(s: State)
    requires s.Valid() && s.discard.Some?
    ensures var o := StepDiscard(s);
            o.state.Valid() && !o.state.escapeFlushed && |o.state.buffer| <= |s.buffer|
            && (o.Next? ==> o.state.discard.None?)
  {
    hide ScanTail, Terminator;
  }

  lemma {:induction false} DrainKeepsValid(r: Recognizers, s: State)
    requires s.Valid()
    ensures Drain(r, s).0.Valid()
    decreases |s.buffer|, if s.discard.Some? then 1 else 0
  {
    hide Step;
    StepKeepsValid(r, s);
    if Step(r, s).Next? {
      NextIsPlain(r, s);
      DrainKeepsValid(r, Step(r, s).state);
    }
  }

  lemma ReactKeepsValid(r: Recognizers, s: State, i: Input)
    requires s.Valid()
    ensures React(r, s, i).0.Valid()
  {
    hide Drain, Timeout;
    match i
    case Bytes(data) => DrainKeepsValid(r, s.Append(data));
    case Idle =>
      DrainKeepsValid(r, s);
      DrainReachesRest(r, s);
      TimeoutKeepsValid(r, Drain(r, s).0);
    case _ =>
  }

  lemma TimeoutKeepsValid(r: Recognizers, s: State)
    requires s.Valid() && AtRest(r, s)
    ensures Timeout(r, s).0.Valid()
  {
    assert s.escapeFlushed ==> IsUnfinishedOrphan(s.buffer) by {
      hide ExtractOne, OrphanLen, IsUnfinishedOrphan;
    }
    assert IsUnfinishedMouse(s.buffer) ==> s.buffer[0] == ESC;
    hide Step, TimeoutDiscard, TimeoutPending, OrphanLen, IsUnfinishedMouse, IsUnfinishedPaste, IsUnfinishedColorReply;
    if s.discard.Some? {
      TimeoutDiscardKeepsValid(s);
    } else {
      TimeoutPendingKeepsValid(r, s);
      TimeoutPendingKeepsValid(r, s.(cellSizeAwaited := 0, heldEscape := false));
    }
  }

  lemma TimeoutDiscardKeepsValid(s: State)
    requires s.Valid() && s.discard.Some?
    ensures TimeoutDiscard(s).Valid()
  {
    hide IsPlausibleTail;
  }

  lemma TimeoutPendingKeepsValid(r: Recognizers, s: State)
    requires s.Valid() && s.discard.None?
    requires s.escapeFlushed ==> s.buffer == [] || s.buffer[0] != ESC
    ensures TimeoutPending(r, s).0.Valid()
  {
    hide Terminator, IsUtf8, IsTruncatedChar;
    assert IsUnfinishedCellSizeReport(s.buffer) ==> s.buffer[0] == ESC;
    assert IsUnfinishedSchemeReport(s.buffer) ==> s.buffer[0] == ESC;
    hide IsUnfinishedCellSizeReport, IsUnfinishedSchemeReport;
  }

  /** Validity is an invariant of every run from a new framer. */
  lemma {:induction false} RunKeepsValid(r: Recognizers, s: State, inputs: seq<Input>)
    requires s.Valid()
    ensures Run(r, s, inputs).0.Valid()
    decreases |inputs|
  {
    if inputs != [] {
      ReactKeepsValid(r, s, inputs[0]);
      RunKeepsValid(r, React(r, s, inputs[0]).0, inputs[1..]);
    }
  }

  /* ---- what one push keeps of its bytes ---- */

  /** Neither skipping bytes nor waiting for an orphaned mouse tail. */
  predicate Plain(s: State) { !s.escapeFlushed && s.discard.None? }

  /** A plain state loses nothing: chunks followed by the buffer are the bytes it had. */
  lemma {:induction false} DrainConserves(r: Recognizers, s: State)
    requires Plain(s)
    ensures Plain(Drain(r, s).0)
    ensures Flatten(Drain(r, s).1) + Drain(r, s).0.buffer == s.buffer
    decreases |s.buffer|
  {
    hide Step;
    StepConserves(r, s);
    if Step(r, s).Next? {
      var t, out := Step(r, s).state, Step(r, s).emitted;
      DrainConserves(r, t);
      FlattenAppend(out, Drain(r, t).1);
      assert Drain(r, s).1 == out + Drain(r, t).1;
    }
  }

  lemma StepConserves(r: Recognizers, s: State)
    requires Plain(s)
    ensures var o := Step(r, s);
            && Plain(o.state)
            && (o.Stop? ==> o.state == s)
            && (o.Next? ==> |o.state.buffer| < |s.buffer| && Flatten(o.emitted) + o.state.buffer == s.buffer)
  {
    hide ExtractOne, CountReply;
    assert Step(r, s) == StepExtract(r, s);
    var o := StepExtract(r, s);
    if o.Next? {
      assert o.emitted[1..] == [];
      assert Flatten(o.emitted) == o.emitted[0];
      if s.splitEscape && DOUBLED_ESCAPE <= s.buffer {
        assert o.emitted[0] == [ESC] == s.buffer[..1];
      } else {
        var x := ExtractOne(r, s.buffer).value;
        CountReplyAppends(s, x.event, []);
        assert Plain(CountReply(s, x.event));
      }
    }
  }

  /* ---- one step, with more bytes behind it ---- */

  /** A tail that was given up, and that `c` would have completed had it come in the same push. */
  predicate Straddles(b: bytes, c: bytes) {
    !IsUnfinishedOrphan(b) && OrphanLen(b).None? && OrphanLen(b + c).Some?
  }

  /** The mouse-tail mode runs past its 128 bytes inside this buffer, and so drops all of it. */
  predicate Overflows(s: State) {
    && s.discard == Some(OrphanedMouseTail)
    && var scan := ScanTail(s.buffer, Remaining(s.discarded), MOUSE_PARAMETERS, MOUSE_FINALS);
       !scan.ended && scan.rest != []
  }

  /** Draining before `c` arrives commits the framer to nothing that it would not do with `c` present. */
  predicate SplitsCleanly(s: State, c: bytes) {
    && !(s.escapeFlushed && Straddles(s.buffer, c))
    && !(Overflows(s) && c != [])
  }

  /** A scan can be interrupted after any byte and resumed with what is left of its budget. */
  lemma {:induction false} ScanTailSplit(b: bytes, c: bytes, budget: nat, parameters: set<byte>, finals: set<byte>)
    ensures var t := ScanTail(b, budget, parameters, finals);
            ScanTail(b + c, budget, parameters, finals)
            == if t.ended then t.(rest := t.rest + c) else ScanTail(t.rest + c, t.left, parameters, finals)
    decreases |b|
  {
    if b != [] && budget > 0 {
      assert (b + c)[1..] == b[1..] + c;
      if b[0] in parameters {
        ScanTailSplit(b[1..], c, budget - 1, parameters, finals);
      }
    }
  }

  lemma {:induction false} ScanNothing(b: bytes, parameters: set<byte>, finals: set<byte>)
    ensures ScanTail(b, 0, parameters, finals) == Scan(b, 0, false)
  {
  }

  lemma HostReplyStepStable(s: State, c: bytes)
    requires s.Valid() && s.discard == Some(HostReplyCsi)
    ensures DiscardCommutes(s, c)
  {
    hide ScanTail;
    ScanTailSplit(s.buffer, c, Remaining(s.discarded), CSI_PARAMETERS, CSI_FINALS);
    ScanNothing(HostReplyTail(s.buffer, s.discarded).rest + c, CSI_PARAMETERS, CSI_FINALS);
  }

  lemma MouseTailStepStable(s: State, c: bytes)
    requires s.Valid() && s.discard == Some(OrphanedMouseTail) && !(Overflows(s) && c != [])
    ensures DiscardCommutes(s, c)
  {
    hide ScanTail;
    ScanTailSplit(s.buffer, c, Remaining(s.discarded), MOUSE_PARAMETERS, MOUSE_FINALS);
    assert [] + c == c;
    if Overflows(s) {
      assert s.Append(c) == s;
      assert StepDiscard(s).state.Append(c) == StepDiscard(s).state;
    }
  }

  lemma ControlTailStepStable(s: State, c: bytes)
    requires s.Valid() && (s.discard == Some(Osc) || s.discard == Some(StTerminated))
    ensures DiscardCommutes(s, c)
  {
    hide Terminator;
    var family := s.discard.value;
    var n := Terminator(s.buffer, family);
    if n.Some? {
      TerminatorStable(s.buffer, family, c);
      assert (s.buffer + c)[n.value..] == s.buffer[n.value..] + c;
    }
  }

  /** A discard step that goes round again does the same with `c` behind the buffer; one that
      stops leaves a state from which `c` is treated alike. */
  predicate DiscardCommutes(s: State, c: bytes)
    requires s.discard.Some?
  {
    var o := StepDiscard(s);
    var p := StepDiscard(s.Append(c));
    if o.Next? then o.emitted == [] && p == Next(o.state.Append(c), [])
    else o.state.discard == s.discard && o.state.escapeFlushed == s.escapeFlushed && p == StepDiscard(o.state.Append(c))
  }

  lemma StepDiscardStable(s: State, c: bytes)
    requires s.Valid() && s.discard.Some?
    requires !(Overflows(s) && c != [])
    ensures DiscardCommutes(s, c)
  {
    hide DiscardCommutes, Overflows;
    match s.discard.value
    case HostReplyCsi => HostReplyStepStable(s, c);
    case OrphanedMouseTail => MouseTailStepStable(s, c);
    case _ => ControlTailStepStable(s, c);
  }

  lemma CountReplyAppends(s: State, e: Event, c: bytes)
    ensures CountReply(s.Append(c), e) == CountReply(s, e).(buffer := s.buffer + c)
    ensures CountReply(s, e).discard == s.discard && CountReply(s, e).escapeFlushed == s.escapeFlushed
  {
  }

  lemma StepExtractStable(r: Recognizers, s: State, c: bytes)
    ensures var o := StepExtract(r, s);
            if o.Next? then StepExtract(r, s.Append(c)) == Next(o.state.Append(c), o.emitted)
            else o.state == s
  {
    hide ExtractOne, CountReply;
    var o := StepExtract(r, s);
    if s.splitEscape && DOUBLED_ESCAPE <= s.buffer {
      PrefixStable(DOUBLED_ESCAPE, s.buffer, c);
      assert (s.buffer + c)[1..] == s.buffer[1..] + c;
    } else if ExtractOne(r, s.buffer).Some? {
      var n := ExtractOne(r, s.buffer).value.consumed;
      assert !(s.splitEscape && DOUBLED_ESCAPE <= s.buffer + c) by {
        if DOUBLED_ESCAPE <= s.buffer + c {
          if |s.buffer| >= 2 {
            PrefixStable(DOUBLED_ESCAPE, s.buffer, c);
          } else {
            assert s.buffer == [(s.buffer + c)[0]] == [ESC];
            LoneEscapeIsHeld(r);
          }
        }
      }
      CountReplyAppends(s, ExtractOne(r, s.buffer).value.event, c);
      ExtractStable(r, s.buffer, c);
      assert (s.buffer + c)[n..] == s.buffer[n..] + c;
      assert (s.buffer + c)[..n] == s.buffer[..n];
    }
  }

  lemma LoneEscapeIsHeld(r: Recognizers)
    ensures ExtractOne(r, [ESC]).None?
  {
    assert !(PASTE_START <= [ESC]);
  }

  /** One pass of the loop commutes with the arrival of `c`. */
  lemma StepStable(r: Recognizers, s: State, c: bytes)
    requires s.Valid() && SplitsCleanly(s, c)
    ensures var o := Step(r, s);
            if o.Next? then Step(r, s.Append(c)) == Next(o.state.Append(c), o.emitted)
            else Step(r, s.Append(c)) == Step(r, o.state.Append(c))
  {
    hide StepDiscard, StepExtract, OrphanLen, IsUnfinishedOrphan, Overflows;
    if s.discard.Some? {
      StepDiscardStable(s, c);
    } else if !s.escapeFlushed {
      StepExtractStable(r, s, c);
    } else if !IsUnfinishedOrphan(s.buffer) {
      OrphanDecisionStable(s.buffer, c);
      if OrphanLen(s.buffer).Some? {
        var n := OrphanLen(s.buffer).value;
        assert (s.buffer + c)[n..] == s.buffer[n..] + c;
      } else {
        var given := s.(escapeFlushed := false);
        StepExtractStable(r, given, c);
        assert s.Append(c).(escapeFlushed := false) == given.Append(c);
      }
    }
  }

  /** Draining early and then appending is the same as appending first. */
  lemma {:induction false} DrainSplit(r: Recognizers, s: State, c: bytes)
    requires s.Valid() && SplitsCleanly(s, c)
    ensures var (t, early) := Drain(r, s);
            var (u, late) := Drain(r, t.Append(c));
            Drain(r, s.Append(c)) == (u, early + late)
    decreases |s.buffer|, if s.discard.Some? then 1 else 0
  {
    hide Step, Overflows, Straddles;
    StepStable(r, s, c);
    match Step(r, s)
    case Stop(t) =>
      assert [] + Drain(r, t.Append(c)).1 == Drain(r, t.Append(c)).1;
      DrainByStep(r, s.Append(c), t.Append(c));
    case Next(t, out) =>
      StepKeepsValid(r, s);
      NextIsPlain(r, s);
      DrainSplit(r, t, c);
      var (t', early) := Drain(r, t);
      var (u, late) := Drain(r, t'.Append(c));
      assert out + (early + late) == (out + early) + late;
  }

  /** Every further pass starts plain, so only the first one can be affected by the boundary. */
  lemma NextIsPlain(r: Recognizers, s: State)
    requires s.Valid() && Step(r, s).Next?
    ensures var t := Step(r, s).state;
            && Plain(t) && |t.buffer| <= |s.buffer| && (|t.buffer| == |s.buffer| ==> s.discard.Some?)
    ensures forall c :: SplitsCleanly(Step(r, s).state, c)
  {
    hide StepExtract, StepDiscard, OrphanLen, IsUnfinishedOrphan;
    StepExtractKeepsValid(r, s);
    StepExtractKeepsValid(r, s.(escapeFlushed := false));
    if s.discard.Some? {
      StepDiscardKeepsValid(s);
    }
  }

  /** The drain loop has nothing left to do. */
  predicate AtRest(r: Recognizers, s: State) { Step(r, s) == Stop(s) }

  lemma {:induction false} DrainReachesRest(r: Recognizers, s: State)
    requires s.Valid()
    ensures AtRest(r, Drain(r, s).0)
    decreases |s.buffer|, if s.discard.Some? then 1 else 0
  {
    hide Step;
    match Step(r, s)
    case Stop(t) =>
      assert s.buffer + [] == s.buffer && t.buffer + [] == t.buffer;
      StepStable(r, s, []);
    case Next(t, out) =>
      StepKeepsValid(r, s);
      NextIsPlain(r, s);
      DrainReachesRest(r, t);
  }

  lemma {:induction false} DrainByStep(r: Recognizers, s: State, t: State)
    requires Step(r, s) == Step(r, t)
    ensures Drain(r, s) == Drain(r, t)
  {
    hide Step;
  }

  /* ---- pushes ---- */

  /** Two pushes in a row: final state and all chunks. */
  function PushTwice(r: Recognizers, s: State, a: bytes, b: bytes): (State, seq<bytes>) {
    var (t, early) := Push(r, s, a);
    var (u, late) := Push(r, t, b);
    (u, early + late)
  }

  /** Where the boundary between two pushes shows. Both parts can be read off the state and the bytes
      before pushing: the mouse-tail mode overflows inside the first push, or the first push makes the
      framer give up an orphaned mouse tail that the second one completes. */
  predicate BoundaryShows(s: State, a: bytes, b: bytes) {
    (Overflows(s.Append(a)) && b != []) || (s.escapeFlushed && Straddles(s.buffer + a, b))
  }

  /** Split invariance, with its exact condition: one push can be cut in two at any point,
      without changing a chunk or the final state, if and only if the boundary does not show. */
  lemma SplitInvariance(r: Recognizers, s: State, a: bytes, b: bytes)
    requires s.Valid()
    ensures PushTwice(r, s, a, b) == Push(r, s, a + b) <==> !BoundaryShows(s, a, b)
  {
    var sa := s.Append(a);
    assert s.buffer + (a + b) == (s.buffer + a) + b;
    assert s.Append(a + b) == sa.Append(b);
    if !BoundaryShows(s, a, b) {
      DrainSplit(r, sa, b);
    } else if s.escapeFlushed {
      StraddleShows(r, sa, b);
    } else {
      OverflowShows(r, sa, b);
    }
  }

  lemma {:induction false} StraddleShows(r: Recognizers, s: State, b: bytes)
    requires s.Valid() && s.escapeFlushed && Straddles(s.buffer, b)
    ensures var (t, early) := Drain(r, s);
            var (u, late) := Drain(r, t.Append(b));
            Drain(r, s.Append(b)) != (u, early + late)
  {
    var plain := s.(escapeFlushed := false);
    DrainByStep(r, s, plain);
    DrainConserves(r, plain);
    var (t, early) := Drain(r, s);
    DrainConserves(r, t.Append(b));
    var (u, late) := Drain(r, t.Append(b));
    FlattenAppend(early, late);
    OrphanDecisionStable(s.buffer, b);
    var n := OrphanLen(s.buffer + b).value;
    var rest := s.(escapeFlushed := false, buffer := (s.buffer + b)[n..]);
    assert Step(r, s.Append(b)) == Next(rest, []);
    DrainConserves(r, rest);
    var (v, all) := Drain(r, s.Append(b));
    assert all == [] + Drain(r, rest).1 == Drain(r, rest).1;
    assert |Flatten(all) + v.buffer| < |s.buffer + b| == |Flatten(early + late) + u.buffer|;
  }

  lemma {:induction false} OverflowShows(r: Recognizers, s: State, b: bytes)
    requires s.Valid() && Overflows(s) && b != []
    ensures var (t, early) := Drain(r, s);
            var (u, late) := Drain(r, t.Append(b));
            Drain(r, s.Append(b)) != (u, early + late)
  {
    var done := s.Clear().EndDiscard();
    hide ScanTail, ExtractOne;
    ScanTailSplit(s.buffer, b, Remaining(s.discarded), MOUSE_PARAMETERS, MOUSE_FINALS);
    var rest := ScanTail(s.buffer, Remaining(s.discarded), MOUSE_PARAMETERS, MOUSE_FINALS).rest;
    ScanNothing(rest + b, MOUSE_PARAMETERS, MOUSE_FINALS);
    assert Step(r, s) == Next(done, []);
    assert Step(r, s.Append(b)) == Next(done, []);
    assert Step(r, done) == Stop(done);
    assert Drain(r, done) == (done, []);
    assert Drain(r, s) == (done, [] + []) && Drain(r, s.Append(b)) == (done, [] + []);
    DrainConserves(r, done.Append(b));
    var (u, late) := Drain(r, done.Append(b));
    var (t, early) := Drain(r, s);
    if u.buffer == [] && early + late == [] {
      assert false;
    }
  }

  /** Pushes one after another. */
  function PushAll(r: Recognizers, s: State, parts: seq<bytes>): (State, seq<bytes>)
    decreases |parts|
  {
    if parts == [] then (s, [])
    else
      var (t, out) := Push(r, s, parts[0]);
      var (u, rest) := PushAll(r, t, parts[1..]);
      (u, out + rest)
  }

  /** Schedule independence: from any plain state, any way of cutting the bytes into pushes
      gives the chunks and the final state of a single push. */
  lemma {:induction false} ScheduleIndependence(r: Recognizers, s: State, parts: seq<bytes>)
    requires Plain(s) && parts != []
    ensures PushAll(r, s, parts) == Push(r, s, Flatten(parts))
    decreases |parts|
  {
    var (t, out) := Push(r, s, parts[0]);
    DrainConserves(r, s.Append(parts[0]));
    if parts[1..] == [] {
      assert Flatten(parts) == parts[0] + Flatten([]) == parts[0];
      assert out + [] == out;
    } else {
      ScheduleIndependence(r, t, parts[1..]);
      SplitInvariance(r, s, parts[0], Flatten(parts[1..]));
    }
  }

  /* ---- small facts for concrete inputs ---- */

  lemma OneDigit(d: byte)
    requires IsDigit(d)
    ensures AllDigits([d]) && DecimalValue([d]) == d - 0x30
  {
    assert [d][..0] == [];
    assert DecimalValue([]) == 0;
  }

  lemma {:induction false} FirstIndex(s: bytes, i: nat, stop: byte)
    requires i < |s| && s[i] == stop && forall j :: 0 <= j < i ==> s[j] != stop
    ensures IndexIn(s, 0, {stop}) == Some(i)
  {
    hide IndexIn;
    var k := IndexIn(s, 0, {stop});
    assert s[i] in {stop};
    assert k.Some? && s[k.value] == stop;
  }

  lemma {:induction false} FieldAt(s: bytes, i: nat)
    requires i < |s| && s[i] == SEMICOLON && forall j :: 0 <= j < i ==> s[j] != SEMICOLON
    ensures Split(s, SEMICOLON) == [s[..i]] + Split(s[i + 1..], SEMICOLON)
  {
    FirstIndex(s, i, SEMICOLON);
    hide IndexIn;
  }

  lemma {:induction false} AsciiIsUtf8(s: bytes)
    requires forall i :: 0 <= i < |s| ==> s[i] < 0x80
    ensures IsUtf8(s)
  {
    if s != [] {
      AsciiIsUtf8(s[1..]);
    }
  }
}
