/** Replies that are due: how long the framer holds a lone ESC for them, and what ends that. */
module FramerReplies {
  import opened Options
  import opened Bytes
  import opened Utf8
  import opened InputSequences
  import opened InputFramer
  import opened InputEvents
  import opened FramerScheduling
  import opened FramerAccounting
  import opened FramerDelivery
  import opened FramerUnits
  import opened FramerTimeouts

  /** A unit behind ESC that is no paste: what reports and keys are made of. */
  predicate IsSequence(r: Recognizers, u: bytes) { IsUnit(r, u) && u[0] == ESC && !(PASTE_START <= u) }

  /** Draining ends when a pass leaves a settled state. */
  lemma {:induction false} LastStep(r: Recognizers, s: State, next: State, out: seq<bytes>)
    requires Step(r, s) == Next(next, out) && Settled(next)
    ensures Drain(r, s) == (next, out)
  {
    hide Step, Drain;
    DrainUnfolds(r, s);
    QuietWhenEmpty(r, next);
    RestIsFixed(r, next);
    assert out + [] == out;
  }

  lemma SequenceStep(r: Recognizers, s: State, u: bytes)
    requires Settled(s) && IsSequence(r, u)
    ensures Step(r, s.Append(u)) == Next(CountReply(s, ClassifyEscape(r, u)), [u])
    ensures Settled(CountReply(s, ClassifyEscape(r, u)))
  {
    hide ExtractOne, ClassifyEscape, IsUnit, CountReply, IsUtf8;
    var full := s.Append(u);
    assert [] + u == u && u + [] == u;
    assert full.buffer == u && u[|u|..] == [] && u[..|u|] == u;
    UnitReads(r, u, []);
    UnitIsNotDoubled(r, u);
    var e := ClassifyEscape(r, u);
    CountReplyAppends(s, e, u);
    CountReplyAppends(s, e, []);
    CountKeepsBuffer(s, e);
    assert StepExtract(r, full) == Next(CountReply(full, e).(buffer := []), [u]);
    assert CountReply(full, e).(buffer := []) == CountReply(s, e);
  }

  lemma CountKeepsBuffer(s: State, e: Event)
    ensures CountReply(s, e).buffer == s.buffer
  {
  }

  /** Pushing one sequence gives it out, and moves the counters as its event demands. */
  lemma PushSequence(r: Recognizers, s: State, u: bytes)
    requires Settled(s) && IsSequence(r, u)
    ensures Push(r, s, u) == (CountReply(s, ClassifyEscape(r, u)), [u])
    ensures Settled(Push(r, s, u).0)
  {
    hide IsSequence, ClassifyEscape, CountReply, Step, Drain;
    SequenceStep(r, s, u);
    LastStep(r, s.Append(u), CountReply(s, ClassifyEscape(r, u)), [u]);
  }

  lemma UnitIsNotDoubled(r: Recognizers, u: bytes)
    requires IsUnit(r, u)
    ensures !(DOUBLED_ESCAPE <= u)
  {
  }

  /* ---- colour replies ---- */

  predicate AreColorReplies(r: Recognizers, units: seq<bytes>) {
    forall i :: 0 <= i < |units| ==> IsSequence(r, units[i]) && r.color(units[i])
  }

  /** Each colour reply closes one of the places that a query opened, down to none. */
  lemma {:induction false} ColorRepliesCount(r: Recognizers, s: State, units: seq<bytes>)
    requires Settled(s) && AreColorReplies(r, units)
    ensures var t := PushAll(r, s, units).0;
            Settled(t) && t.colorAwaited == if |units| <= s.colorAwaited then s.colorAwaited - |units| else 0
    decreases |units|
  {
    hide Push, IsSequence, ClassifyEscape;
    if units != [] {
      PushSequence(r, s, units[0]);
      ColorStep(r, s, units[0]);
      ColorRepliesCount(r, Push(r, s, units[0]).0, units[1..]);
    }
  }

  lemma ColorStep(r: Recognizers, s: State, u: bytes)
    requires Settled(s) && IsSequence(r, u) && r.color(u)
    ensures Push(r, s, u).0.colorAwaited == if s.colorAwaited == 0 then 0 else s.colorAwaited - 1
  {
    PushSequence(r, s, u);
    hide Push, IsSequence;
  }

  /** A query opens 258 places, and only as many replies close them: until then a lone ESC is held once. */
  lemma {:induction false} QueryWindow(r: Recognizers, s: State, units: seq<bytes>)
    requires Settled(s) && s.cellSizeAwaited == 0 && AreColorReplies(r, units)
    ensures var t := PushAll(r, s.ColorQuerySent(), units).0;
            t.colorAwaited > 0 <==> |units| < 258
  {
    ColorRepliesCount(r, s.ColorQuerySent(), units);
    hide PushAll;
  }

  /** A report of a changed colour scheme opens the places anew, when the framer tracks such changes. */
  lemma SchemeReportOpensWindow(r: Recognizers, s: State, dark: bool)
    requires Settled(s) && !r.color(SchemeBytes(dark))
    ensures var t := Push(r, s, SchemeBytes(dark)).0;
            t.colorAwaited == if s.schemeTracking then 258 else s.colorAwaited
  {
    hide SchemeBytes, IsUnit, ExtractOne, ClassifyEscape;
    var u := SchemeBytes(dark);
    SchemeUnit(r, dark);
    SchemeIsRead(r, dark, []);
    UnitReads(r, u, []);
    PushSequence(r, s, u);
    hide Push;
  }

  /** A new framer does not track such changes until it is asked to. */
  lemma TrackingIsAsked(r: Recognizers, splitEscape: bool, dark: bool)
    requires !r.color(SchemeBytes(dark))
    ensures Push(r, Start(splitEscape), SchemeBytes(dark)).0.colorAwaited == 0
    ensures Push(r, Start(splitEscape).TrackScheme(), SchemeBytes(dark)).0.colorAwaited == 258
  {
    SchemeReportOpensWindow(r, Start(splitEscape), dark);
    SchemeReportOpensWindow(r, Start(splitEscape).TrackScheme(), dark);
    hide Push, SchemeBytes;
  }

  lemma SchemeUnit(r: Recognizers, dark: bool)
    ensures IsSequence(r, SchemeBytes(dark))
  {
    hide IsUnit;
    var u := SchemeBytes(dark);
    assert u == CSI + u[2..8] + [0x6e];
    ControlSequenceIsUnit(r, u[2..8], 0x6e);
    assert u[2] == 0x3f != PASTE_START[2];
  }

  /* ---- the reply to a cell size query ---- */

  /** One report answers a cell size query, whatever it says. */
  lemma CellSizeReplyCounts(r: Recognizers, s: State, height: nat, width: nat)
    requires Settled(s) && 1 <= height <= U32 && 1 <= width <= U32 && !r.color(CellSizeBytes(height, width))
    ensures var u := CellSizeBytes(height, width); var t := Push(r, s, u).0;
            && Push(r, s, u).1 == [u] && Settled(t) && t.colorAwaited == s.colorAwaited
            && t.cellSizeAwaited == if s.cellSizeAwaited == 0 then 0 else s.cellSizeAwaited - 1
  {
    hide CellSizeBytes, IsUnit, ExtractOne, ClassifyEscape;
    var u := CellSizeBytes(height, width);
    CellSizeUnit(r, height, width);
    CellSizeIsRead(r, height, width, []);
    UnitReads(r, u, []);
    PushSequence(r, s, u);
    hide Push;
  }

  /** A lone ESC behind the answer to a cell size query comes out at the next timeout; in front of the answer
      it is held once. */
  lemma AnswerEndsHold(r: Recognizers, s: State, height: nat, width: nat)
    requires Settled(s) && s.colorAwaited == 0
    requires 1 <= height <= U32 && 1 <= width <= U32 && !r.color(CellSizeBytes(height, width))
    ensures var u := CellSizeBytes(height, width); var asked := s.CellSizeQuerySent();
            && Flush(r, asked.Append([ESC])).1 == []
            && Flush(r, Push(r, asked, u).0.Append([ESC])).1 == [[ESC]]
  {
    var asked := s.CellSizeQuerySent();
    CellSizeReplyCounts(r, asked, height, width);
    hide Push, CellSizeBytes, Flush;
    var t := Push(r, asked, CellSizeBytes(height, width)).0;
    assert [] + [ESC] == [ESC];
    LoneEscapeDelay(r, asked.Append([ESC]));
    LoneEscapeDelay(r, t.Append([ESC]));
  }

  /** A query of either kind holds a lone ESC once more, also one that was held before. */
  lemma QueriesRenewHold(r: Recognizers, s: State)
    requires Plain(s) && s.buffer == [ESC]
    ensures Flush(r, s.ColorQuerySent()).1 == [] && Flush(r, s.CellSizeQuerySent()).1 == []
  {
    hide Flush;
    LoneEscapeDelay(r, s.ColorQuerySent());
    LoneEscapeDelay(r, s.CellSizeQuerySent());
  }

  /** A key, or anything that is no reply, moves no counter. */
  lemma KeysDoNotCount(r: Recognizers, s: State, u: bytes)
    requires Settled(s) && IsSequence(r, u)
    requires var e := ClassifyEscape(r, u); !e.HostColor? && !e.CellSize? && !e.ColorScheme?
    ensures Push(r, s, u) == (s.(heldEscape := false), [u])
  {
    PushSequence(r, s, u);
    hide Push, IsSequence, ClassifyEscape;
    assert s.(heldEscape := false).buffer == [];
  }

  /** A lone ESC given out ends all waiting for replies. */
  lemma EscapeEndsWaiting(r: Recognizers, s: State)
    requires Plain(s) && s.buffer == [ESC] && (s.heldEscape || (s.colorAwaited == 0 && s.cellSizeAwaited == 0))
    ensures Timeout(r, s)
            == (s.(buffer := [], colorAwaited := 0, cellSizeAwaited := 0, heldEscape := false, escapeFlushed := true),
                [[ESC]])
  {
    assert |s.buffer| == 1;
  }

  /* ---- a doubled ESC in front of a sequence ---- */

  /** When doubled escapes are split, ESC in front of a sequence is a key by itself, and the sequence follows. */
  lemma DoubledEscapeSplits(r: Recognizers, s: State, u: bytes)
    requires Settled(s) && s.splitEscape && IsSequence(r, u)
    ensures Push(r, s, [ESC] + u).1 == [[ESC], u] && Settled(Push(r, s, [ESC] + u).0)
  {
    var b := [ESC] + u;
    var full := s.Append(b);
    assert full.buffer == b && DOUBLED_ESCAPE <= b;
    assert b[1..] == u;
    assert [] + u == u;
    assert full.(buffer := u) == s.Append(u);
    PushSequence(r, s, u);
    hide IsSequence;
    assert Step(r, full) == Next(s.Append(u), [[ESC]]);
    hide Step;
    DrainUnfolds(r, full);
    assert [[ESC]] + [u] == [[ESC], u];
  }

  lemma {:induction false} UnitLength(r: Recognizers, u: bytes)
    requires IsSequence(r, u)
    ensures |u| > 1 && EscapeLen(u) == Some(|u|) && IsUtf8(u)
  {
    assert u[..|u|] == u;
    LoneEscapeIsHeld(r);
    assert |u| == 1 ==> u == [ESC];
    hide EscapeLen, IsUtf8, ClassifyEscape;
  }

  /** When they are kept, ESC and the sequence are one chunk, unless the sequence is a mouse report. */
  lemma {:induction false} DoubledEscapeLength(r: Recognizers, u: bytes)
    requires IsSequence(r, u)
    ensures EscapeLen([ESC] + u) == Some(if IsSgrMouse(u) then 1 else 1 + |u|)
    ensures IsUtf8([ESC] + u)
  {
    hide EscapeLen, IsUtf8, IsUnit, CsiLen;
    var b := [ESC] + u;
    UnitLength(r, u);
    assert b[1..] == u && b[1] == u[0];
    EscapeInFront(u);
    NoMouse(u);
    DoubledEscapeCases(b);
    if DOUBLED_MOUSE <= b {
      DoubledMouseIsSequence(b);
      assert b[1..1 + |u|] == u;
    }
  }

  lemma {:induction false} EscapeInFront(u: bytes)
    requires IsUtf8(u)
    ensures IsUtf8([ESC] + u)
  {
    var b := [ESC] + u;
    assert ReadHead(b) == Whole(1) && b[1..] == u;
  }

  lemma NoMouse(u: bytes)
    ensures MOUSE_INTRODUCER <= u ==> DOUBLED_MOUSE <= [ESC] + u
  {
    if MOUSE_INTRODUCER <= u {
      assert ([ESC] + u)[..4] == [ESC] + u[..3];
    }
  }

  lemma DoubledEscapeKept(r: Recognizers, s: State, u: bytes)
    requires Settled(s) && !s.splitEscape && IsSequence(r, u)
    ensures Push(r, s, [ESC] + u).1 == if IsSgrMouse(u) then [[ESC], u] else [[ESC] + u]
    ensures Settled(Push(r, s, [ESC] + u).0)
  {
    hide IsSequence, IsSgrMouse, EscapeLen, IsUtf8, Step, Drain;
    var b := [ESC] + u;
    var full := s.Append(b);
    assert [] + b == b && full.buffer == b;
    assert b[1..] == u && b[..1] == [ESC] && b[..|b|] == b && b[|b|..] == [];
    DoubledEscapeLength(r, u);
    StartsDoubled(r, u);
    KeptStep(r, full);
    var next := Step(r, full).state;
    if IsSgrMouse(u) {
      DrainUnfolds(r, full);
      AfterEscape(r, s, next, u);
      assert [[ESC]] + [u] == [[ESC], u];
    } else {
      LastStep(r, full, next, [b]);
    }
  }

  lemma StartsDoubled(r: Recognizers, u: bytes)
    requires IsSequence(r, u)
    ensures DOUBLED_ESCAPE <= [ESC] + u
  {
    UnitLength(r, u);
    hide IsUnit;
    assert ([ESC] + u)[1] == u[0];
  }

  lemma KeptStep(r: Recognizers, s: State)
    requires Plain(s) && !s.splitEscape && DOUBLED_ESCAPE <= s.buffer && EscapeLen(s.buffer).Some? && IsUtf8(s.buffer)
    requires EscapeLen(s.buffer).value == |s.buffer| || EscapeLen(s.buffer).value == 1
    ensures var n := EscapeLen(s.buffer).value; var o := Step(r, s);
            && o.Next? && o.emitted == [s.buffer[..n]] && o.state.buffer == s.buffer[n..] && Plain(o.state)
  {
    var n := EscapeLen(s.buffer).value;
    assert s.buffer[1] == ESC;
    assert !(PASTE_START <= s.buffer);
    assert n == |s.buffer| ==> s.buffer[..n] == s.buffer;
    assert n == 1 ==> s.buffer[..n] == [ESC];
    assert IsUtf8([ESC]) by { AsciiIsUtf8([ESC]); }
    var e := ClassifyEscape(r, s.buffer[..n]);
    CountReplyAppends(s, e, []);
    hide EscapeLen, IsUtf8, ClassifyEscape, CountReply;
  }

  /** Whatever the counters, the sequence behind the ESC is given out whole. */
  lemma {:induction false} AfterEscape(r: Recognizers, s: State, next: State, u: bytes)
    requires Settled(s) && IsSequence(r, u) && Plain(next) && next.buffer == u
    ensures Drain(r, next).1 == [u] && Settled(Drain(r, next).0)
  {
    var empty := next.(buffer := []);
    assert [] + u == u;
    assert empty.Append(u) == next;
    PushSequence(r, empty, u);
    hide IsSequence, Drain;
  }

  /* ---- colour replies under timeouts ---- */

  /** `ESC ] 1 0 ;` or `ESC ] 1 1 ;` */
  function ColorReplyStart(background: bool): bytes { [ESC, 0x5d, 0x31, if background then 0x31 else 0x30, 0x3b] }

  lemma UnfinishedReplyRests(r: Recognizers, s: State)
    requires Plain(s) && IsUnfinishedColorReply(s.buffer)
    ensures AtRest(r, s)
  {
    hide Terminator, FindSubFrom, CsiLen, IsUtf8, IsSgrMouse;
    assert s.buffer[1] == 0x5d;
    assert !(PASTE_START <= s.buffer) && !(DOUBLED_ESCAPE <= s.buffer);
  }

  /** In front of its BEL a reply is unfinished. */
  lemma ReplyIsUnfinished(background: bool, body: bytes, n: nat)
    requires n <= |body| && forall i :: 0 <= i < |body| ==> body[i] != ESC && body[i] != 0x07
    ensures IsUnfinishedColorReply(ColorReplyStart(background) + body[..n])
  {
    hide FindSubFrom, IndexIn;
    var b := ColorReplyStart(background) + body[..n];
    assert forall i :: 5 <= i < |b| ==> b[i] == body[i - 5];
    var bel: set<byte> := {0x07};
    assert forall i :: 0 <= i < |b| ==> b[i] !in bel;
    forall i: nat
      ensures !MatchAt(b, i, STRING_TERMINATOR)
    {
      if i + 2 <= |b| {
        assert b[i..i + 2] == [b[i], b[i + 1]];
      }
    }
  }

  /** A reply to a query for the default colours is never cut by a timeout: behind its first five bytes, every
      schedule of pushes and timeouts over the rest gives out exactly one chunk, the whole reply. */
  lemma {:induction false} ColorReplyAtomicity(
      r: Recognizers, s: State, background: bool, body: bytes, inputs: seq<Input>)
    requires Settled(s) && Timing(inputs) && Pushed(inputs) == body + [0x07]
    requires forall i :: 0 <= i < |body| ==> body[i] != ESC && body[i] != 0x07
    requires IsUtf8(ColorReplyStart(background) + body + [0x07])
    ensures var u := ColorReplyStart(background) + body + [0x07];
            var (begun, early) := Push(r, s, ColorReplyStart(background));
            early == [] && Run(r, begun, inputs).1 == [u] && Settled(Run(r, begun, inputs).0)
  {
    hide Drain, Step, Flush, AtRest, IsUtf8, Run, IsUnfinishedColorReply, IsSequence, ColorReplyStart;
    var start, w := ColorReplyStart(background), body + [0x07];
    var u := start + body + [0x07];
    var begun := s.(buffer := start);
    ReplyStarts(r, s, background, body);
    ReplySequence(r, background, body);
    assert start + w == u;
    forall n | 0 <= n <= |w|
      ensures Flush(r, Push(r, begun, w[..n]).0) == (Push(r, begun, w[..n]).0, [])
    {
      ReplyQuiet(r, s, background, body, n);
    }
    QuietRunIsPush(r, begun, inputs);
    PushSequence(r, s, u);
    assert [] + u == u;
    assert begun.Append(w) == s.Append(u);
  }

  lemma {:induction false} ReplySequence(r: Recognizers, background: bool, body: bytes)
    requires forall i :: 0 <= i < |body| ==> body[i] != ESC && body[i] != 0x07
    requires IsUtf8(ColorReplyStart(background) + body + [0x07])
    ensures IsSequence(r, ColorReplyStart(background) + body + [0x07])
  {
    hide IsUnit, IsUtf8;
    var u := ColorReplyStart(background) + body + [0x07];
    var rest := ColorReplyStart(background)[2..] + body;
    assert u == [ESC, 0x5d] + rest + [0x07];
    assert forall i :: 3 <= i < |rest| ==> rest[i] == body[i - 3];
    BellStringIsUnit(r, rest);
    assert u[1] == 0x5d != PASTE_START[1];
  }

  lemma ReplyStarts(r: Recognizers, s: State, background: bool, body: bytes)
    requires Settled(s) && forall i :: 0 <= i < |body| ==> body[i] != ESC && body[i] != 0x07
    ensures var begun := s.(buffer := ColorReplyStart(background));
            AtRest(r, begun) && Push(r, s, ColorReplyStart(background)) == (begun, [])
  {
    var start := ColorReplyStart(background);
    var begun := s.(buffer := start);
    ReplyIsUnfinished(background, body, 0);
    assert body[..0] == [] && start + [] == start && [] + start == start;
    UnfinishedReplyRests(r, begun);
    RestIsFixed(r, begun);
    hide Step, IsUnfinishedColorReply, Drain;
    assert s.Append(start) == begun;
  }

  lemma ReplyQuiet(r: Recognizers, s: State, background: bool, body: bytes, n: nat)
    requires Settled(s) && n <= |body| + 1 && IsSequence(r, ColorReplyStart(background) + body + [0x07])
    requires forall i :: 0 <= i < |body| ==> body[i] != ESC && body[i] != 0x07
    ensures var t := Push(r, s.(buffer := ColorReplyStart(background)), (body + [0x07])[..n]).0; Flush(r, t) == (t, [])
  {
    hide Step, Flush, IsUnfinishedColorReply, IsSequence, Drain, AtRest, ColorReplyStart;
    var start, w := ColorReplyStart(background), body + [0x07];
    var t := s.(buffer := start + w[..n]);
    if n <= |body| {
      assert w[..n] == body[..n];
      ReplyIsUnfinished(background, body, n);
      UnfinishedReplyRests(r, t);
      RestIsFixed(r, t);
      QuietWhenWaiting(r, t);
      assert s.(buffer := start).Append(w[..n]) == t;
    } else {
      var u := start + body + [0x07];
      assert w[..n] == w && start + w == u && [] + u == u;
      assert s.(buffer := start).Append(w[..n]) == s.Append(u);
      PushSequence(r, s, u);
      QuietWhenEmpty(r, Push(r, s, u).0);
    }
  }

  /* ---- orphaned mouse tails ---- */

  /** How long the bytes behind a flushed ESC are held in case they are the rest of a mouse report: up to 32. */
  lemma OrphanIsHeldUpTo32(r: Recognizers, s: State, digits: bytes)
    requires s.Valid() && s.escapeFlushed && s.buffer == [] && AllDigits(digits)
    ensures var t := Push(r, s, ORPHANED_MOUSE + digits).0;
            t.escapeFlushed <==> |ORPHANED_MOUSE + digits| <= 32
    ensures |ORPHANED_MOUSE + digits| <= 32 ==>
              Push(r, s, ORPHANED_MOUSE + digits) == (s.Append(ORPHANED_MOUSE + digits), [])
  {
    var b := ORPHANED_MOUSE + digits;
    var full := s.Append(b);
    assert full.buffer == b && b[2..] == digits;
    DigitsEndNothing(digits);
    if |b| <= 32 {
      assert Step(r, full) == Stop(full) by { hide OrphanLen, StepPlain; }
      hide Step;
      DrainUnfolds(r, full);
    } else {
      var given := full.(escapeFlushed := false);
      assert Step(r, full) == Step(r, given) by { hide OrphanLen, StepPlain; }
      hide Step;
      DrainByStep(r, full, given);
      DrainConserves(r, given);
    }
  }

  lemma DigitsEndNothing(digits: bytes)
    requires AllDigits(digits)
    ensures OrphanLen(ORPHANED_MOUSE + digits).None?
  {
    hide IndexIn, IsUtf8, IsSgrMouse;
    var b := ORPHANED_MOUSE + digits;
    assert forall i :: 2 <= i < |b| ==> b[i] == digits[i - 2];
  }
}
