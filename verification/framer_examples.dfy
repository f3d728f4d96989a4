/** Runs of a new framer at whose end the cut between two pushes shows. */
module FramerExamples {
  import opened Options
  import opened Bytes
  import opened Utf8
  import opened InputSequences
  import opened InputFramer
  import opened FramerScheduling
  import opened FramerAccounting

  const ORPHAN_HEAD: bytes := [0x5b, 0x3c, 0x2b]
  const ORPHAN_REST: bytes := [0x30, 0x3b, 0x31, 0x3b, 0x31, 0x4d]

  /** A new framer after a run of two inputs. */
  lemma {:induction false} TwoInputs(r: Recognizers, s: State, a: Input, b: Input)
    ensures Run(r, s, [a, b]).0 == React(r, React(r, s, a).0, b).0
  {
    hide React;
    assert [a, b][1..] == [b] && [b][1..] == [];
    assert Run(r, React(r, s, a).0, [b]).0 == Run(r, React(r, React(r, s, a).0, b).0, []).0;
  }

  lemma {:induction false} HeldThenIdle(r: Recognizers, s: State, data: bytes)
    requires s.buffer == [] && AtRest(r, s.Append(data))
    ensures Run(r, s, [Bytes(data), Idle]).0 == Timeout(r, s.Append(data)).0
  {
    TwoInputs(r, s, Bytes(data), Idle);
    RestIsFixed(r, s.Append(data));
    hide Run, Drain, Timeout, Step;
  }

  /** ESC, and nothing more in time. */
  lemma {:induction false} EscapeFlushedState(r: Recognizers, split: bool)
    ensures Run(r, Start(split), [Bytes([ESC]), Idle]).0 == Start(split).(escapeFlushed := true)
  {
    var s := Start(split).Append([ESC]);
    assert [] + [ESC] == [ESC];
    LoneEscapeIsHeld(r);
    assert AtRest(r, s) by { hide ExtractOne; }
    HeldThenIdle(r, Start(split), [ESC]);
    hide Run, Step, ExtractOne;
    assert |s.buffer| == 1;
  }

  /** The mouse introducer, and nothing more in time. */
  lemma {:induction false} MouseTailState(r: Recognizers, split: bool)
    ensures Run(r, Start(split), [Bytes(MOUSE_INTRODUCER), Idle]).0
            == Start(split).(discard := Some(OrphanedMouseTail), discarded := 3)
  {
    var s := Start(split).Append(MOUSE_INTRODUCER);
    assert [] + MOUSE_INTRODUCER == MOUSE_INTRODUCER;
    assert CsiLen(MOUSE_INTRODUCER, MOUSE_FINALS).None? && MOUSE_INTRODUCER[1] == 0x5b;
    assert ExtractOne(r, MOUSE_INTRODUCER).None?;
    assert AtRest(r, s) by { hide ExtractOne; }
    HeldThenIdle(r, Start(split), MOUSE_INTRODUCER);
    hide Run, Step, ExtractOne;
    assert MOUSE_INTRODUCER[3..] == [];
  }

  /** After a lone ESC was flushed, `[<+0;1;1M` in one push is dropped as an orphaned mouse report; cut behind
      the `+`, its bytes are delivered as ordinary input. */
  lemma {:induction false} OrphanBoundaryExample(r: Recognizers, split: bool)
    ensures var s := Run(r, Start(split), [Bytes([ESC]), Idle]).0;
            && s.Valid() && BoundaryShows(s, ORPHAN_HEAD, ORPHAN_REST)
            && PushTwice(r, s, ORPHAN_HEAD, ORPHAN_REST) != Push(r, s, ORPHAN_HEAD + ORPHAN_REST)
  {
    EscapeFlushedState(r, split);
    OrphanExampleStraddles();
    assert [] + ORPHAN_HEAD == ORPHAN_HEAD;
    var s := Start(split).(escapeFlushed := true);
    SplitInvariance(r, s, ORPHAN_HEAD, ORPHAN_REST);
    hide Straddles, Overflows, Run, Push, PushTwice;
  }

  lemma OrphanExampleStraddles()
    ensures Straddles(ORPHAN_HEAD, ORPHAN_REST)
  {
    hide IsSgrMouse, IsUtf8;
    OrphanExampleEnds();
    hide IndexIn;
    var whole := ORPHAN_HEAD + ORPHAN_REST;
    assert ORPHAN_HEAD[2..][0] == 0x2b;
    assert whole[..9] == whole;
    AsciiIsUtf8([ESC] + whole);
    OrphanExampleParses([ESC] + whole);
  }

  lemma OrphanExampleEnds()
    ensures IndexIn(ORPHAN_HEAD, 0, MOUSE_FINALS).None?
    ensures IndexIn(ORPHAN_HEAD + ORPHAN_REST, 0, MOUSE_FINALS) == Some(8)
  {
    assert (ORPHAN_HEAD + ORPHAN_REST)[8] in MOUSE_FINALS;
  }

  lemma OrphanExampleParses(b: bytes)
    requires b == [0x1b, 0x5b, 0x3c, 0x2b, 0x30, 0x3b, 0x31, 0x3b, 0x31, 0x4d]
    ensures IsSgrMouse(b)
  {
    hide Split, DecimalValue, IndexIn;
    var body: bytes := [0x2b, 0x30, 0x3b, 0x31, 0x3b, 0x31];
    assert b[3..9] == body;
    OrphanExampleFields(body);
    assert [0x2b, 0x30][1..] == [0x30];
    OneDigit(0x30);
    OneDigit(0x31);
  }

  lemma {:induction false} OrphanExampleFields(body: bytes)
    requires body == [0x2b, 0x30, 0x3b, 0x31, 0x3b, 0x31]
    ensures Split(body, SEMICOLON) == [[0x2b, 0x30], [0x31], [0x31]]
  {
    FieldAt(body, 2);
    assert body[..2] == [0x2b, 0x30] && body[3..] == [0x31, 0x3b, 0x31];
    FieldAt(body[3..], 1);
    assert body[3..][..1] == [0x31] && body[3..][2..] == [0x31];
    assert IndexIn([0x31], 0, {SEMICOLON}).None?;
  }

  /** A mouse report cut off at a timeout behind its introducer, then 126 digits in one push: the push drops
      everything behind them too, so `x` is lost or delivered depending on the cut. */
  lemma {:induction false} MouseTailBoundaryExample(r: Recognizers, split: bool, digits: bytes)
    requires |digits| == 126 && AllDigits(digits)
    ensures var s := Run(r, Start(split), [Bytes(MOUSE_INTRODUCER), Idle]).0;
            && s.Valid() && BoundaryShows(s, digits, [0x78])
            && PushTwice(r, s, digits, [0x78]) != Push(r, s, digits + [0x78])
  {
    MouseTailState(r, split);
    assert [] + digits == digits;
    DigitsRunOut(digits, MAX_DISCARDED - 3);
    var s := Start(split).(discard := Some(OrphanedMouseTail), discarded := 3);
    SplitInvariance(r, s, digits, [0x78]);
    hide ScanTail, Run, Push, PushTwice;
  }

  lemma {:induction false} DigitsRunOut(digits: bytes, budget: nat)
    requires |digits| > budget && AllDigits(digits)
    ensures ScanTail(digits, budget, MOUSE_PARAMETERS, MOUSE_FINALS) == Scan(digits[budget..], 0, false)
  {
    if budget > 0 {
      DigitsRunOut(digits[1..], budget - 1);
    }
  }
}
