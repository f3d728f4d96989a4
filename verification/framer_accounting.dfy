/** Where the bytes of a run go, and how long the framer can hold some back. */
module FramerAccounting {
  import opened Bytes
  import opened Utf8
  import opened InputSequences
  import opened InputFramer
  import opened FramerScheduling

  /* ---- byte accounting ---- */

  /** Everything given out so far, followed by everything still held. */
  function Held(out: (State, seq<bytes>)): bytes { Flatten(out.1) + out.0.buffer }

  /** `rest` is a tail of `b`, and what was emitted, if anything, is all of `b` before it. */
  predicate Cuts(out: seq<bytes>, rest: bytes, b: bytes) {
    && |rest| <= |b|
    && rest == b[|b| - |rest|..]
    && (out == [] || out == [b[..|b| - |rest|]])
  }

  lemma {:induction false} CutsAccounts(out: seq<bytes>, rest: bytes, b: bytes)
    requires Cuts(out, rest, b)
    ensures Subsequence(Flatten(out) + rest, b)
  {
    hide Subsequence;
    var n := |b| - |rest|;
    SubsequenceSelf(b);
    if out == [] {
      SubsequenceDrop(b, n);
      assert Flatten(out) + rest == b[n..];
    } else {
      assert out[1..] == [];
      assert Flatten(out) + rest == b[..n] + b[n..] == b;
    }
  }

  lemma {:induction false} ScanTailIsSuffix(b: bytes, budget: nat, parameters: set<byte>, finals: set<byte>)
    ensures var t := ScanTail(b, budget, parameters, finals);
            |t.rest| <= |b| && t.rest == b[|b| - |t.rest|..]
    decreases |b|
  {
    if b != [] && budget > 0 && b[0] in parameters {
      ScanTailIsSuffix(b[1..], budget - 1, parameters, finals);
    }
  }

  function Emitted(o: Outcome): seq<bytes> { if o.Next? then o.emitted else [] }

  lemma TailsCut(b: bytes, discarded: nat)
    ensures Cuts([], HostReplyTail(b, discarded).rest, b)
    ensures Cuts([], MouseTail(b, discarded).rest, b)
  {
    hide ScanTail;
    ScanTailIsSuffix(b, Remaining(discarded), CSI_PARAMETERS, CSI_FINALS);
    ScanTailIsSuffix(b, Remaining(discarded), MOUSE_PARAMETERS, MOUSE_FINALS);
  }

  lemma StepDiscardCuts(s: State)
    requires s.discard.Some?
    ensures Cuts(Emitted(StepDiscard(s)), StepDiscard(s).state.buffer, s.buffer)
  {
    hide HostReplyTail, MouseTail, Terminator;
    TailsCut(s.buffer, s.discarded);
  }

  lemma StepExtractCuts(r: Recognizers, s: State)
    ensures Cuts(Emitted(StepExtract(r, s)), StepExtract(r, s).state.buffer, s.buffer)
  {
    hide ExtractOne;
    if DOUBLED_ESCAPE <= s.buffer {
      assert s.buffer[..1] == [ESC];
    }
  }

  lemma StepCuts(r: Recognizers, s: State)
    ensures Cuts(Emitted(Step(r, s)), Step(r, s).state.buffer, s.buffer)
  {
    hide StepDiscard, StepExtract, OrphanLen, IsUnfinishedOrphan;
    var given := s.(escapeFlushed := false);
    StepExtractCuts(r, given);
    if s.discard.Some? {
      StepDiscardCuts(given);
    }
    if !s.escapeFlushed {
      assert given == s;
    }
  }

  lemma StepAccounts(r: Recognizers, s: State)
    ensures Subsequence(Flatten(Emitted(Step(r, s))) + Step(r, s).state.buffer, s.buffer)
  {
    hide Step, Subsequence;
    StepCuts(r, s);
    CutsAccounts(Emitted(Step(r, s)), Step(r, s).state.buffer, s.buffer);
  }

  lemma {:induction false} DrainAccounts(r: Recognizers, s: State)
    ensures Subsequence(Held(Drain(r, s)), s.buffer)
    decreases |s.buffer|, if s.discard.Some? then 1 else 0
  {
    hide Step, Subsequence;
    StepAccounts(r, s);
    match Step(r, s)
    case Stop(t) =>
    case Next(t, out) =>
      StepDecreases(r, s);
      DrainAccounts(r, t);
      FlattenAppend(out, Drain(r, t).1);
      SubsequenceSelf(Flatten(out));
      SubsequenceConcat(Flatten(out), Flatten(out), Held(Drain(r, t)), t.buffer);
      assert Held(Drain(r, s)) == Flatten(out) + Held(Drain(r, t));
      SubsequenceTransitive(Held(Drain(r, s)), Flatten(out) + t.buffer, s.buffer);
  }

  lemma TimeoutDiscardCuts(s: State)
    requires s.discard.Some?
    ensures Cuts([], TimeoutDiscard(s).buffer, s.buffer)
  {
    hide IsPlausibleTail;
  }

  lemma TimeoutPendingCuts(r: Recognizers, s: State)
    ensures Cuts(TimeoutPending(r, s).1, TimeoutPending(r, s).0.buffer, s.buffer)
  {
    hide Terminator, ControlFamily, IsUtf8, IsTruncatedChar, IsUnfinishedCellSizeReport, IsUnfinishedSchemeReport;
    assert s.buffer == [ESC] ==> s.buffer[..1] == [ESC];
    assert s.buffer[..|s.buffer|] == s.buffer;
    if TimeoutPending(r, s).1 != [] {
      assert TimeoutPending(r, s).0.buffer == [] == s.buffer[|s.buffer|..];
    }
  }

  /** The three ways to emit nothing: keep the bytes, drop some of the first, drop all. */
  lemma SilentCuts(b: bytes, n: nat)
    requires n <= |b|
    ensures Cuts([], b, b) && Cuts([], b[n..], b) && Cuts([], [], b)
  {
  }

  lemma OrphanCuts(s: State)
    ensures var n := OrphanLen(s.buffer); n.Some? ==> n.value <= |s.buffer| && Cuts([], s.buffer[n.value..], s.buffer)
  {
    hide Terminator, IsUtf8, IsSgrMouse, Cuts;
    if OrphanLen(s.buffer).Some? {
      SilentCuts(s.buffer, OrphanLen(s.buffer).value);
    }
  }

  lemma TimeoutCuts(r: Recognizers, s: State)
    ensures Cuts(Timeout(r, s).1, Timeout(r, s).0.buffer, s.buffer)
  {
    hide TimeoutDiscard, TimeoutPending, OrphanLen, IsUnfinishedMouse, IsUnfinishedPaste, IsUnfinishedColorReply,
         IsCellSizePrefix, Cuts;
    SilentCuts(s.buffer, 0);
    OrphanCuts(s);
    var given := s.(cellSizeAwaited := 0, heldEscape := false);
    TimeoutPendingCuts(r, s);
    TimeoutPendingCuts(r, given);
    assert given.buffer == s.buffer;
    if s.discard.Some? {
      TimeoutDiscardCuts(s);
    }
  }

  lemma TimeoutAccounts(r: Recognizers, s: State)
    ensures Subsequence(Held(Timeout(r, s)), s.buffer)
  {
    hide Timeout, Subsequence;
    TimeoutCuts(r, s);
    CutsAccounts(Timeout(r, s).1, Timeout(r, s).0.buffer, s.buffer);
  }

  function Data(i: Input): bytes { match i case Bytes(data) => data case _ => [] }

  lemma ReactAccounts(r: Recognizers, s: State, i: Input)
    ensures Subsequence(Held(React(r, s, i)), s.buffer + Data(i))
  {
    hide Drain, Timeout, Subsequence;
    match i
    case Bytes(data) => DrainAccounts(r, s.Append(data));
    case Idle =>
      var (t, chunks) := Drain(r, s);
      var (u, more) := Timeout(r, t);
      DrainAccounts(r, s);
      TimeoutAccounts(r, t);
      FlattenAppend(chunks, more);
      SubsequenceSelf(Flatten(chunks));
      SubsequenceConcat(Flatten(chunks), Flatten(chunks), Held((u, more)), t.buffer);
      assert Held(Flush(r, s)) == Flatten(chunks) + Held((u, more));
      SubsequenceTransitive(Held(Flush(r, s)), Flatten(chunks) + t.buffer, s.buffer);
      assert s.buffer + [] == s.buffer;
    case _ =>
      assert Held(React(r, s, i)) == s.buffer == s.buffer + Data(i);
      SubsequenceSelf(s.buffer);
  }

  lemma {:induction false} AccountsCompose(out: bytes, held: bytes, buffer: bytes, before: bytes, later: bytes)
    requires Subsequence(held, buffer + later) && Subsequence(out + buffer, before)
    ensures Subsequence(out + held, before + later)
  {
    hide Subsequence;
    SubsequenceSelf(out);
    SubsequenceSelf(later);
    SubsequenceConcat(out, out, held, buffer + later);
    SubsequenceConcat(out + buffer, before, later, later);
    assert out + (buffer + later) == (out + buffer) + later;
    SubsequenceTransitive(out + held, out + (buffer + later), before + later);
  }

  lemma {:induction false} RunHolds(r: Recognizers, s: State, inputs: seq<Input>)
    requires inputs != []
    ensures var (t, out) := React(r, s, inputs[0]);
            Held(Run(r, s, inputs)) == Flatten(out) + Held(Run(r, t, inputs[1..]))
    ensures Pushed(inputs) == Data(inputs[0]) + Pushed(inputs[1..])
  {
    hide React;
    var (t, out) := React(r, s, inputs[0]);
    var rest := Run(r, t, inputs[1..]);
    FlattenAppend(out, rest.1);
    assert Run(r, s, inputs) == (rest.0, out + rest.1);
    hide Run, Pushed;
  }

  /** Byte accounting: over every run, what was given out followed by what is held is made of the
      pushed bytes in their order. The framer neither invents, repeats nor reorders input. */
  lemma {:induction false} RunAccounts(r: Recognizers, s: State, inputs: seq<Input>)
    ensures Subsequence(Held(Run(r, s, inputs)), s.buffer + Pushed(inputs))
    decreases |inputs|
  {
    hide React, Subsequence;
    if inputs == [] {
      assert Held(Run(r, s, inputs)) == s.buffer == s.buffer + Pushed(inputs);
      SubsequenceSelf(s.buffer);
    } else {
      hide Run;
      var (t, out) := React(r, s, inputs[0]);
      ReactAccounts(r, s, inputs[0]);
      RunAccounts(r, t, inputs[1..]);
      RunHolds(r, s, inputs);
      AccountsCompose(Flatten(out), Held(Run(r, t, inputs[1..])), t.buffer,
        s.buffer + Data(inputs[0]), Pushed(inputs[1..]));
      assert (s.buffer + Data(inputs[0])) + Pushed(inputs[1..]) == s.buffer + Pushed(inputs);
    }
  }

  lemma ReactConserves(r: Recognizers, s: State, i: Input)
    requires Plain(s) && !i.Idle?
    ensures Plain(React(r, s, i).0) && Held(React(r, s, i)) == s.buffer + Data(i)
  {
    hide Drain;
    match i
    case Bytes(data) => DrainConserves(r, s.Append(data));
    case _ =>
  }

  /** Without a timeout nothing is ever dropped: the bytes are exactly those pushed. */
  lemma {:induction false} RunConserves(r: Recognizers, s: State, inputs: seq<Input>)
    requires Plain(s) && forall i :: 0 <= i < |inputs| ==> !inputs[i].Idle?
    ensures Held(Run(r, s, inputs)) == s.buffer + Pushed(inputs)
    decreases |inputs|
  {
    hide React;
    if inputs == [] {
      assert Held(Run(r, s, inputs)) == s.buffer == s.buffer + Pushed(inputs);
    } else {
      hide Run;
      ReactConserves(r, s, inputs[0]);
      var (t, out) := React(r, s, inputs[0]);
      var later := Pushed(inputs[1..]);
      assert Flatten(out) + (t.buffer + later) == (Flatten(out) + t.buffer) + later;
      assert (s.buffer + Data(inputs[0])) + later == s.buffer + (Data(inputs[0]) + later);
      RunConserves(r, React(r, s, inputs[0]).0, inputs[1..]);
      RunHolds(r, s, inputs);
    }
  }

  /* ---- settling ---- */

  /** What a timeout waits for without limit: a paste, an OSC 10/11 reply, or a character, plain or after ESC. */
  predicate WaitsForMore(b: bytes) {
    || IsUnfinishedPaste(b)
    || IsUnfinishedColorReply(b)
    || IsTruncatedChar(b)
    || (b != [] && b[0] == ESC && IsTruncatedChar(b[1..]))
  }

  /** The two states a timeout holds once. */
  predicate HeldOnce(s: State) {
    && !s.heldEscape
    && ((s.buffer == [ESC] && (s.colorAwaited > 0 || s.cellSizeAwaited > 0)) || IsCellSizePrefix(s))
  }

  lemma WaitingIsNoneOfTheOthers(r: Recognizers, s: State)
    requires s.discard.None? && AtRest(r, s) && WaitsForMore(s.buffer)
    ensures Timeout(r, s) == (s, [])
  {
    var b := s.buffer;
    assert !s.escapeFlushed by {
      hide ExtractOne, OrphanLen;
      assert s.escapeFlushed ==> IsUnfinishedOrphan(b);
    }
    if IsUnfinishedPaste(b) {
      assert b[2] == PASTE_START[2];
    } else if IsUnfinishedColorReply(b) {
      assert b[1] == 0x5d;
    } else if IsTruncatedChar(b) {
      assert b[0] >= 0xc2 && !IsUtf8(b);
    } else {
      assert b[1..][0] == b[1] >= 0xc2;
      assert ReadHead(b) == Whole(1) && !IsUtf8(b[1..]);
    }
  }

  /** A timeout at rest, outside the discard modes: it holds the buffer, once or for good, or empties it. */
  lemma TimeoutAtRest(r: Recognizers, s: State)
    requires s.Valid() && s.discard.None? && AtRest(r, s)
    ensures var (t, out) := Timeout(r, s);
            if WaitsForMore(s.buffer) then t == s && out == []
            else if HeldOnce(s) then t == s.(heldEscape := true) && out == []
            else t.buffer == []
  {
    if WaitsForMore(s.buffer) {
      WaitingIsNoneOfTheOthers(r, s);
    } else {
      assert s.escapeFlushed ==> IsUnfinishedOrphan(s.buffer) by {
        hide ExtractOne;
      }
      TimeoutOtherwise(r, s);
    }
  }

  lemma TimeoutOtherwise(r: Recognizers, s: State)
    requires s.discard.None? && !WaitsForMore(s.buffer)
    requires s.escapeFlushed ==> IsUnfinishedOrphan(s.buffer)
    ensures var (t, out) := Timeout(r, s);
            if HeldOnce(s) then t == s.(heldEscape := true) && out == []
            else t.buffer == []
  {
    hide IsUtf8, IsTruncatedChar, FindSub, Terminator, OrphanLen;
    if s.escapeFlushed && ORPHANED_MOUSE <= s.buffer {
      UnfinishedOrphanHasNoEnd(s.buffer);
    }
    assert s.buffer == [ESC] ==> |s.buffer| == 1;
    if IsCellSizePrefix(s) {
      assert s.buffer[1] == 0x5b && |s.buffer| == 2;
    }
  }

  lemma UnfinishedOrphanHasNoEnd(b: bytes)
    requires IsUnfinishedOrphan(b)
    ensures OrphanLen(b).None?
  {
    assert forall i :: 2 <= i < |b| ==> b[i] == b[2..][i - 2];
  }

  /** A discarding framer at rest with an empty buffer keeps it empty. */
  lemma EmptyStaysEmpty(r: Recognizers, s: State)
    requires s.Valid() && s.buffer == []
    ensures Flush(r, s).0.buffer == [] && Flush(r, s).1 == []
  {
    assert ExtractOne(r, []).None?;
    assert forall f :: Terminator([], f).None?;
    hide ExtractOne, Terminator, OrphanLen;
  }

  lemma {:induction false} RestIsFixed(r: Recognizers, s: State)
    requires AtRest(r, s)
    ensures Drain(r, s) == (s, [])
  {
    hide Step;
  }

  /** Settling: from any state that is not discarding, two timeouts with no input between them
      leave the buffer empty, unless it holds something the framer waits for without limit, and then
      every further timeout leaves the state as it is. Both directions, on the drained buffer. */
  lemma {:induction false} Settling(r: Recognizers, s: State)
    requires s.Valid() && s.discard.None?
    ensures var drained := Drain(r, s).0;
            var twice := Flush(r, Flush(r, s).0).0;
            if WaitsForMore(drained.buffer) then twice == drained && Flush(r, twice) == (twice, [])
            else twice.buffer == []
  {
    var d := Drain(r, s).0;
    DrainKeepsValid(r, s);
    DrainReachesRest(r, s);
    DrainStaysOutOfDiscard(r, s);
    TimeoutAtRest(r, d);
    TimeoutKeepsValid(r, d);
    hide Drain, Timeout, Step, WaitsForMore, ExtractOne;
    var first := Flush(r, s).0;
    assert first == Timeout(r, d).0;
    if WaitsForMore(d.buffer) {
      RestIsFixed(r, d);
      var none: seq<bytes> := [];
      assert none + none == none;
      assert first == d && Flush(r, d) == (d, none + none);
    } else if HeldOnce(d) {
      HoldingKeepsRest(r, d);
      RestIsFixed(r, first);
      TimeoutAtRest(r, first);
      assert Flush(r, first).0 == Timeout(r, first).0;
    } else {
      EmptyStaysEmpty(r, first);
    }
  }

  lemma HoldingKeepsRest(r: Recognizers, s: State)
    requires AtRest(r, s) && s.discard.None?
    ensures AtRest(r, s.(heldEscape := true))
  {
    hide ExtractOne, OrphanLen, IsUnfinishedOrphan;
  }

  lemma {:induction false} DrainStaysOutOfDiscard(r: Recognizers, s: State)
    requires s.Valid() && s.discard.None?
    ensures Drain(r, s).0.discard.None?
    decreases |s.buffer|
  {
    if s.escapeFlushed {
      hide Drain, ExtractOne, OrphanLen, IsUnfinishedOrphan;
      if Step(r, s).Next? {
        NextIsPlain(r, s);
        DrainConserves(r, Step(r, s).state);
        DrainOnce(r, s);
      } else {
        DrainOnce(r, s);
      }
    } else {
      DrainConserves(r, s);
    }
  }

  lemma {:induction false} DrainOnce(r: Recognizers, s: State)
    ensures Step(r, s).Stop? ==> Drain(r, s) == (Step(r, s).state, [])
    ensures Step(r, s).Next? ==> Drain(r, s).0 == Drain(r, Step(r, s).state).0
  {
    hide Step;
  }

  /** A lone ESC is delivered by the next timeout or by the one after it; it waits for the second
      exactly when a host reply is due and it was not held before. */
  lemma LoneEscapeDelay(r: Recognizers, s: State)
    requires Plain(s) && s.buffer == [ESC]
    ensures var held := !s.heldEscape && (s.colorAwaited > 0 || s.cellSizeAwaited > 0);
            if held then Flush(r, s) == (s.(heldEscape := true), [])
                         && Flush(r, s.(heldEscape := true)).1 == [[ESC]]
            else Flush(r, s).1 == [[ESC]] && Flush(r, s).0.buffer == []
  {
    LoneEscapeIsHeld(r);
    var t := s.(heldEscape := true);
    assert AtRest(r, s) && AtRest(r, t) by { hide ExtractOne; }
    hide Step, ExtractOne, Drain;
    RestIsFixed(r, s);
    RestIsFixed(r, t);
    var none: seq<bytes> := [];
    assert none + none == none && none + [[ESC]] == [[ESC]];
    assert Flush(r, s) == (Timeout(r, s).0, [] + Timeout(r, s).1);
    assert Flush(r, t) == (Timeout(r, t).0, [] + Timeout(r, t).1);
    LoneEscapeTimeout(r, s);
    LoneEscapeTimeout(r, t);
  }

  lemma LoneEscapeTimeout(r: Recognizers, s: State)
    requires Plain(s) && s.buffer == [ESC]
    ensures var (t, out) := Timeout(r, s);
            if !s.heldEscape && (s.colorAwaited > 0 || s.cellSizeAwaited > 0)
              then t == s.(heldEscape := true) && out == []
            else t.buffer == [] && out == [[ESC]]
  {
    assert |s.buffer| == 1;
  }
}
