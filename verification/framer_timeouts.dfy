/** What a timeout gives out, and what becomes of the rest of a sequence that a timeout has cut. */
module FramerTimeouts {
  import opened Options
  import opened Bytes
  import opened Utf8
  import opened InputSequences
  import opened InputFramer
  import opened InputEvents
  import opened FramerScheduling
  import opened FramerAccounting
  import opened FramerDelivery
  import opened FramerDiscards
  import opened FramerUnits

  /** Nothing is held or skipped. */
  predicate Settled(s: State) { Plain(s) && s.buffer == [] }

  /* ---- what is given out ---- */

  /** The buffer is not for a key to be: it waits for more, is held once, or begins something that a timeout
      skips, that is a mouse report, the tail of one behind a flushed ESC, a control string, or a reply. */
  predicate SetAside(s: State) {
    || WaitsForMore(s.buffer)
    || HeldOnce(s)
    || IsUnfinishedMouse(s.buffer)
    || (s.escapeFlushed && ORPHANED_MOUSE <= s.buffer)
    || (exists family :: IsUnfinishedControl(s.buffer, family))
    || IsUnfinishedSchemeReport(s.buffer)
    || (s.cellSizeAwaited > 0 && IsUnfinishedCellSizeReport(s.buffer))
  }

  /** A timeout gives the buffer out. */
  predicate GivesOut(r: Recognizers, s: State) {
    s.buffer != [] && !SetAside(s) && (s.buffer == [ESC] || (IsUtf8(s.buffer) && r.key(s.buffer)))
  }

  /** What a timeout gives out of a drained buffer: the whole of it, if it is a lone ESC or a key and is
      not set aside, and nothing otherwise. */
  lemma TimeoutGivesOut(r: Recognizers, s: State)
    requires s.Valid() && s.discard.None? && AtRest(r, s)
    ensures Timeout(r, s).1 == if GivesOut(r, s) then [s.buffer] else []
  {
    if WaitsForMore(s.buffer) {
      WaitingIsNoneOfTheOthers(r, s);
    } else {
      assert s.escapeFlushed ==> IsUnfinishedOrphan(s.buffer) by {
        hide ExtractOne;
      }
      OtherwiseGivesOut(r, s);
    }
  }

  lemma OtherwiseGivesOut(r: Recognizers, s: State)
    requires s.discard.None? && !WaitsForMore(s.buffer)
    requires s.escapeFlushed ==> IsUnfinishedOrphan(s.buffer)
    ensures Timeout(r, s).1 == if GivesOut(r, s) then [s.buffer] else []
  {
    if s.escapeFlushed && ORPHANED_MOUSE <= s.buffer {
      UnfinishedOrphanHasNoEnd(s.buffer);
    }
    UnfinishedControl(s.buffer);
    var given := s.(cellSizeAwaited := 0, heldEscape := false);
    PendingGivesOut(r, s);
    PendingGivesOut(r, given);
    ShortBuffers(s);
    hide IsUtf8, IsTruncatedChar, FindSubFrom, Terminator, OrphanLen, TimeoutPending, IsUnfinishedSchemeReport,
         IsUnfinishedCellSizeReport, IsUnfinishedOrphan, IsUnfinishedMouse, IsUnfinishedControl, IsUnfinishedColorReply;
  }

  /** Control strings by their opening bytes. */
  lemma UnfinishedControl(b: bytes)
    ensures (exists family :: IsUnfinishedControl(b, family))
            <==> ControlFamily(b).Some? && Terminator(b, ControlFamily(b).value).None?
  {
    hide Terminator;
    if ControlFamily(b).Some? && Terminator(b, ControlFamily(b).value).None? {
      assert IsUnfinishedControl(b, ControlFamily(b).value);
    }
  }

  lemma ShortBuffers(s: State)
    ensures s.buffer == CSI ==> !IsUnfinishedCellSizeReport(s.buffer) && s.buffer != [ESC]
    ensures s.buffer == [ESC] ==> !IsUnfinishedMouse(s.buffer) && !(ORPHANED_MOUSE <= s.buffer)
  {
    assert s.buffer == CSI ==> |s.buffer| == 2;
    assert s.buffer == [ESC] ==> |s.buffer| == 1;
  }

  /** The last part of a timeout. */
  lemma PendingGivesOut(r: Recognizers, s: State)
    ensures var aside :=
              || (s.cellSizeAwaited > 0 && IsUnfinishedCellSizeReport(s.buffer))
              || IsUnfinishedSchemeReport(s.buffer)
              || (ControlFamily(s.buffer).Some? && Terminator(s.buffer, ControlFamily(s.buffer).value).None?)
              || (s.buffer == [ESC] && (s.colorAwaited > 0 || s.cellSizeAwaited > 0) && !s.heldEscape);
            TimeoutPending(r, s).1
            == if !aside && (s.buffer == [ESC] || (IsUtf8(s.buffer) && r.key(s.buffer))) then [s.buffer] else []
  {
    assert s.buffer == [ESC] ==> |s.buffer| == 1;
    hide IsUtf8, IsTruncatedChar, Terminator;
  }

  /** What is neither given out nor set aside is dropped, and with it the wait for an orphaned tail. */
  lemma JunkIsDropped(r: Recognizers, s: State)
    requires s.Valid() && s.discard.None? && AtRest(r, s)
    requires s.buffer != [] && !SetAside(s) && !GivesOut(r, s)
    ensures var (t, out) := Timeout(r, s); out == [] && Settled(t)
  {
    TimeoutGivesOut(r, s);
    TimeoutAtRest(r, s);
    UnfinishedControl(s.buffer);
    JunkEnds(r, s);
    hide AtRest, GivesOut, Timeout;
  }

  lemma JunkEnds(r: Recognizers, s: State)
    requires s.discard.None? && s.buffer != [] && !SetAside(s) && !GivesOut(r, s)
    ensures Plain(Timeout(r, s).0)
  {
    UnfinishedControl(s.buffer);
    ShortBuffers(s);
    hide IsUtf8, FindSubFrom, Terminator, IsUnfinishedSchemeReport, IsUnfinishedCellSizeReport, IsUnfinishedMouse,
         IsUnfinishedControl, IsUnfinishedColorReply, IsUnfinishedPaste, OrphanLen;
    assert !IsTruncatedChar(s.buffer);
  }

  /* ---- what is set aside, in bytes ---- */

  /** The string holds neither of the terminators of an operating system command. */
  predicate HasNoEnd(b: bytes) {
    0x07 !in b && forall i :: 0 <= i < |b| - 1 ==> !(b[i] == 0x1b && b[i + 1] == 0x5c)
  }

  /** The replies that are waited for without limit are those to the queries 10 and 11. */
  lemma UnfinishedColorReplies(b: bytes)
    ensures IsUnfinishedColorReply(b) <==>
              HasNoEnd(b) && ([0x1b, 0x5d, 0x31, 0x30, 0x3b] <= b || [0x1b, 0x5d, 0x31, 0x31, 0x3b] <= b)
  {
    UnfinishedCommands(b);
    hide Terminator, HasNoEnd;
  }

  lemma UnfinishedCommands(b: bytes)
    ensures Terminator(b, Osc).None? <==> HasNoEnd(b)
  {
    var st, bel := FindSub(b, STRING_TERMINATOR), IndexIn(b, 0, {0x07});
    hide FindSubFrom, IndexIn;
    if st.Some? {
      assert b[st.value..st.value + 2] == [b[st.value], b[st.value + 1]];
    } else if bel.None? {
      forall i: nat | i < |b| - 1
        ensures !(b[i] == 0x1b && b[i + 1] == 0x5c)
      {
        assert b[i..i + 2] == [b[i], b[i + 1]];
        assert !MatchAt(b, i, STRING_TERMINATOR);
      }
    }
    assert bel.Some? ==> b[bel.value] == 0x07;
  }

  /** A cell size report that may still be completed: `CSI 6`, and behind semicolons up to two numbers, the first of
      which is written by the time that the second begins. */
  ghost predicate MayBeCellSize(b: bytes) {
    || b == CSI + [0x36]
    || (exists h :: AllDigits(h) && b == CSI + ([0x36] + [SEMICOLON] + h))
    || (exists h, w :: h != [] && AllDigits(h) && AllDigits(w)
                       && b == CSI + ([0x36] + [SEMICOLON] + h + [SEMICOLON] + w))
  }

  lemma UnfinishedCellSizes(b: bytes)
    ensures IsUnfinishedCellSizeReport(b) <==> MayBeCellSize(b)
  {
    if MayBeCellSize(b) {
      WrittenCellSize(b);
    }
    if IsUnfinishedCellSizeReport(b) {
      ReadCellSize(b);
    }
    hide IsUnfinishedCellSizeReport, MayBeCellSize;
  }

  lemma ReadCellSize(b: bytes)
    requires IsUnfinishedCellSizeReport(b)
    ensures MayBeCellSize(b)
  {
    hide Split, AllDigits;
    var f := Split(b[2..], SEMICOLON);
    SplitJoins(b[2..]);
    assert b == CSI + b[2..];
    if |f| == 1 {
      assert b == CSI + [0x36];
    } else if |f| == 2 {
      assert AllDigits(f[1]) && b == CSI + ([0x36] + [SEMICOLON] + f[1]);
    } else {
      assert b[2..] == [0x36] + [SEMICOLON] + f[1] + [SEMICOLON] + f[2];
      assert AllDigits(f[1]) && AllDigits(f[2]);
    }
  }

  lemma WrittenCellSize(b: bytes)
    requires MayBeCellSize(b)
    ensures IsUnfinishedCellSizeReport(b)
  {
    hide Split;
    assert b[2..] == b[|CSI|..];
    SplitOne([0x36]);
    if h :| AllDigits(h) && b == CSI + ([0x36] + [SEMICOLON] + h) {
      assert b[2..] == [0x36] + [SEMICOLON] + h;
      FieldInFront([0x36], h);
      SplitOne(h);
    } else if h, w :| h != [] && AllDigits(h) && AllDigits(w)
                      && b == CSI + ([0x36] + [SEMICOLON] + h + [SEMICOLON] + w) {
      assert b[2..] == [0x36] + [SEMICOLON] + h + [SEMICOLON] + w;
      ThreeFields([0x36], h, w);
    }
  }

  /** Up to three fields put together again. */
  lemma {:induction false} SplitJoins(s: bytes)
    ensures var f := Split(s, SEMICOLON);
            && (|f| == 1 ==> s == f[0])
            && (|f| == 2 ==> s == f[0] + [SEMICOLON] + f[1])
            && (|f| == 3 ==> s == f[0] + ([SEMICOLON] + f[1] + [SEMICOLON] + f[2]))
  {
    hide Split;
    var f := Split(s, SEMICOLON);
    var behind := SplitStep(s);
    if |f| > 1 {
      var last := SplitStep(behind);
      if |f| == 3 {
        var none := SplitStep(last);
        assert f[2] == last && behind == f[1] + [SEMICOLON] + last;
        assert [SEMICOLON] + behind == [SEMICOLON] + f[1] + [SEMICOLON] + last;
      }
    }
  }

  lemma {:induction false} SplitStep(s: bytes) returns (behind: bytes)
    ensures var f := Split(s, SEMICOLON);
            if |f| == 1 then s == f[0]
            else s == f[0] + ([SEMICOLON] + behind) && Split(behind, SEMICOLON) == f[1..]
  {
    var i := IndexIn(s, 0, {SEMICOLON});
    hide IndexIn;
    behind := if i.Some? then s[i.value + 1..] else [];
    if i.Some? {
      assert s == s[..i.value] + ([SEMICOLON] + behind);
    }
  }

  /** The same of a whole timeout: what drains by itself comes first. */
  lemma {:induction false} FlushGivesOut(r: Recognizers, s: State)
    requires s.Valid()
    ensures var (d, out) := Drain(r, s);
            Flush(r, s).1 == out + if d.discard.None? && GivesOut(r, d) then [d.buffer] else []
  {
    DrainKeepsValid(r, s);
    DrainReachesRest(r, s);
    hide Drain, GivesOut;
    var d := Drain(r, s).0;
    if d.discard.None? {
      TimeoutGivesOut(r, d);
    }
    hide AtRest;
  }

  /** `ESC [` is a key by itself, Alt and the bracket: when no reply is due, one timeout delivers it. */
  lemma {:induction false} AltBracketIsDelivered(r: Recognizers, split: bool)
    requires r.key(CSI)
    ensures Run(r, Start(split), [Input.Bytes(CSI), Idle]).1 == [CSI]
  {
    var s := Start(split).Append(CSI);
    assert [] + CSI == CSI && CSI[1] == 0x5b;
    CsiIsHeld(r);
    assert AtRest(r, s) by { hide ExtractOne; }
    RestIsFixed(r, s);
    FlushGivesOut(r, s);
    CsiIsNotSetAside(split);
    hide Step, Drain, Timeout, AtRest, SetAside;
    var inputs := [Input.Bytes(CSI), Idle];
    assert inputs[1..] == [Idle] && [Idle][1..] == [];
    var none: seq<bytes> := [];
    assert React(r, Start(split), inputs[0]) == (s, none);
    assert Run(r, s, [Idle]).1 == Flush(r, s).1 + Run(r, Flush(r, s).0, []).1;
    assert Flush(r, s).1 == none + [CSI] == [CSI];
  }

  lemma CsiIsHeld(r: Recognizers)
    ensures ExtractOne(r, CSI).None? && IsUtf8(CSI)
  {
    assert CsiLen(CSI, CSI_FINALS).None? && !(PASTE_START <= CSI) && CSI[1] == 0x5b;
    AsciiIsUtf8(CSI);
  }

  lemma CsiIsNotSetAside(split: bool)
    ensures !SetAside(Start(split).(buffer := CSI))
  {
    assert CSI[1] == 0x5b && |CSI| == 2;
    assert CSI[1..] == [0x5b];
    UnfinishedControl(CSI);
  }

  /* ---- control strings ---- */

  /** What a control-string mode swallows: everything up to the terminator and nothing behind it; without a
      terminator nothing is given out. */
  lemma ControlTailLoss(r: Recognizers, s: State, data: bytes)
    requires s.Valid() && (s.discard == Some(Osc) || s.discard == Some(StTerminated))
    ensures var w := s.buffer + data; var n := Terminator(w, s.discard.value);
            Push(r, s, data)
            == if n.None? then (s.(buffer := w), []) else Push(r, s.EndDiscard().Clear(), w[n.value..])
  {
    hide Terminator, Step;
    var full := s.Append(data);
    ControlStep(r, full);
    DrainUnfolds(r, full);
    var n := Terminator(full.buffer, s.discard.value);
    if n.Some? {
      var rest := full.buffer[n.value..];
      assert [] + rest == rest;
      assert full.(buffer := rest).EndDiscard() == s.EndDiscard().Clear().Append(rest);
      var out := Drain(r, s.EndDiscard().Clear().Append(rest)).1;
      assert [] + out == out;
    }
  }

  lemma ControlStep(r: Recognizers, s: State)
    requires s.Valid() && (s.discard == Some(Osc) || s.discard == Some(StTerminated))
    ensures var n := Terminator(s.buffer, s.discard.value);
            Step(r, s)
            == if n.None? then Stop(s) else Next(s.(buffer := s.buffer[n.value..]).EndDiscard(), [])
  {
    hide Terminator;
  }

  /** A control string that a timeout cuts is swallowed with its rest: a timeout gives none of it out, nor does the
      push that brings the terminator. An OSC 10 or 11 reply is waited for instead. */
  lemma CutStringIsSwallowed(r: Recognizers, s: State, family: Family, rest: bytes)
    requires Plain(s) && IsUnfinishedControl(s.buffer, family) && !WaitsForMore(s.buffer)
    requires Terminator(rest, family) == Some(|rest|)
    ensures var (t, out) := Timeout(r, s);
            out == [] && Push(r, t, rest).1 == [] && Settled(Push(r, t, rest).0)
  {
    CutStringSkips(r, s, family);
    var t := Timeout(r, s).0;
    SkipsUpTo(r, t, rest);
    hide Timeout, Terminator, Drain, WaitsForMore, IsUnfinishedControl;
  }

  lemma SkipsUpTo(r: Recognizers, t: State, rest: bytes)
    requires t.Valid() && (t.discard == Some(Osc) || t.discard == Some(StTerminated))
    requires Terminator(t.buffer + rest, t.discard.value) == Some(|t.buffer + rest|)
    ensures Push(r, t, rest).1 == [] && Settled(Push(r, t, rest).0)
  {
    hide Terminator, Drain;
    ControlTailLoss(r, t, rest);
    var w := t.buffer + rest;
    assert w[|w|..] == [];
    EmptyPush(r, t.EndDiscard().Clear());
  }

  lemma CutStringSkips(r: Recognizers, s: State, family: Family)
    requires Plain(s) && IsUnfinishedControl(s.buffer, family) && !WaitsForMore(s.buffer)
    ensures var (t, out) := Timeout(r, s);
            out == [] && t == s.(discard := Some(family), discarded := 0, buffer := []) && t.Valid()
            && (family == Osc || family == StTerminated)
    ensures forall rest: bytes :: [] + rest == rest
  {
    assert s.buffer[1] != 0x5b && |s.buffer| >= 2;
    assert !IsUnfinishedMouse(s.buffer) && !IsUnfinishedSchemeReport(s.buffer) && !IsUnfinishedCellSizeReport(s.buffer);
    hide Terminator, FindSubFrom, IsUtf8, IsTruncatedChar, OrphanLen, IsUnfinishedMouse, IsUnfinishedSchemeReport,
         IsUnfinishedCellSizeReport;
  }

  /** The tail of a control string may come in pieces with timeouts between them: while a piece is plausible and
      few bytes have been skipped, the mode outlasts the timeout, even if it strikes inside the terminator. */
  lemma TailOutlastsTimeout(r: Recognizers, s: State, rest: bytes)
    requires s.Valid() && (s.discard == Some(Osc) || s.discard == Some(StTerminated))
    requires Terminator(s.buffer, s.discard.value).None? && IsPlausibleTail(s.discard.value, s.buffer)
    requires s.discarded + |s.buffer| <= 128 && rest != []
    requires Terminator(s.buffer + rest, s.discard.value) == Some(|s.buffer + rest|)
    ensures var (t, out) := Timeout(r, s);
            out == [] && Push(r, t, rest).1 == [] && Settled(Push(r, t, rest).0)
  {
    var t := Timeout(r, s).0;
    var kept := if s.buffer != [] && s.buffer[|s.buffer| - 1] == ESC then [ESC] else [];
    assert t == s.(discarded := s.discarded + |s.buffer|, buffer := kept) by { hide Terminator, IsPlausibleTail; }
    TerminatorSurvives(s.buffer, kept, rest, s.discard.value);
    SkipsUpTo(r, t, rest);
    hide Terminator, IsPlausibleTail, Drain;
  }

  /** The bytes that a colour reply may go on with. */
  const COLOR_TEXT: string := "0123456789;:/#?._-+rgbRGB"

  predicate InText(b: byte, s: string) { exists i :: 0 <= i < |s| && s[i] as int == b }

  /** Which pieces are plausible: for an operating system command, those made of the bytes of a colour reply
      and ESC; for the other strings, those that may have lost their terminator's second byte. */
  lemma PlausibleTails(b: bytes)
    ensures IsPlausibleTail(Osc, b) <==> forall i :: 0 <= i < |b| ==> b[i] == ESC || InText(b[i], COLOR_TEXT)
    ensures IsPlausibleTail(StTerminated, b) <==> b != [] && b[|b| - 1] == ESC
  {
    forall c: byte
      ensures InText(c, COLOR_TEXT) <==>
                IsDigit(c) || c in {0x3b, 0x3a, 0x2f, 0x23, 0x3f, 0x2e, 0x5f, 0x2d, 0x2b,
                                   0x72, 0x67, 0x62, 0x52, 0x47, 0x42}
    {
      ColorText(c);
    }
    hide InText;
  }

  lemma ColorText(c: byte)
    ensures InText(c, COLOR_TEXT) <==>
              IsDigit(c) || c in {0x3b, 0x3a, 0x2f, 0x23, 0x3f, 0x2e, 0x5f, 0x2d, 0x2b,
                                 0x72, 0x67, 0x62, 0x52, 0x47, 0x42}
  {
    var s := COLOR_TEXT;
    assert |s| == 25;
    if IsDigit(c) {
      assert s[c - 0x30] as int == c;
    }
    assert s[10] as int == 0x3b && s[11] as int == 0x3a && s[12] as int == 0x2f && s[13] as int == 0x23;
    assert s[14] as int == 0x3f && s[15] as int == 0x2e && s[16] as int == 0x5f && s[17] as int == 0x2d;
    assert s[18] as int == 0x2b && s[19] as int == 0x72 && s[20] as int == 0x67 && s[21] as int == 0x62;
    assert s[22] as int == 0x52 && s[23] as int == 0x47 && s[24] as int == 0x42;
  }

  /** A string terminator, or BEL for an operating system command, ends at `n`. */
  predicate EndsAt(b: bytes, family: Family, n: nat) {
    n <= |b| && ((n >= 2 && MatchAt(b, n - 2, STRING_TERMINATOR)) || (family == Osc && n >= 1 && b[n - 1] == 0x07))
  }

  /** The terminator found is the first. */
  lemma TerminatorIsFirst(b: bytes, family: Family)
    requires family == Osc || family == StTerminated
    ensures Terminator(b, family).Some? ==> EndsAt(b, family, Terminator(b, family).value)
    ensures forall m: nat :: EndsAt(b, family, m) ==>
              Terminator(b, family).Some? && Terminator(b, family).value <= m
  {
    hide FindSubFrom, IndexIn;
    var bel: set<byte> := {0x07};
    forall m: nat | EndsAt(b, family, m)
      ensures Terminator(b, family).Some? && Terminator(b, family).value <= m
    {
      if !(m >= 2 && MatchAt(b, m - 2, STRING_TERMINATOR)) {
        assert b[m - 1] in bel;
      }
    }
  }

  /** Of the bytes in front of a terminator only a last ESC matters. */
  lemma TerminatorSurvives(b: bytes, kept: bytes, rest: bytes, family: Family)
    requires family == Osc || family == StTerminated
    requires Terminator(b + rest, family) == Some(|b + rest|) && rest != []
    requires kept == if b != [] && b[|b| - 1] == ESC then [ESC] else []
    ensures Terminator(kept + rest, family) == Some(|kept + rest|)
  {
    hide Terminator, EndsAt;
    var w, v := b + rest, kept + rest;
    var d := |b| - |kept|;
    TerminatorIsFirst(w, family);
    TerminatorIsFirst(v, family);
    assert forall i :: 0 <= i < |v| ==> v[i] == w[d + i];
    assert w[|b|..] == rest && (kept != [] ==> w[|b| - 1] == ESC);
    EndStays(b, kept, rest, family);
    assert EndsAt(v, family, |v|);
    if Terminator(v, family).value < |v| {
      EndMoves(v, w, d, family, Terminator(v, family).value);
    }
  }

  lemma EndMoves(v: bytes, w: bytes, d: nat, family: Family, m: nat)
    requires |w| == d + |v| && w[d..] == v && EndsAt(v, family, m)
    ensures EndsAt(w, family, d + m)
  {
    assert forall i :: 0 <= i < |v| ==> v[i] == w[d + i];
    if m >= 2 {
      assert v[m - 2..m] == w[d + m - 2..d + m];
    }
  }

  lemma EndStays(b: bytes, kept: bytes, rest: bytes, family: Family)
    requires EndsAt(b + rest, family, |b + rest|) && rest != []
    requires kept == if b != [] && b[|b| - 1] == ESC then [ESC] else []
    ensures EndsAt(kept + rest, family, |kept + rest|)
    ensures (b + rest)[|b| - |kept|..] == kept + rest
  {
    var a := b[..|b| - |kept|];
    assert b == a + kept;
    assert (a + kept) + rest == a + (kept + rest);
    if |b + rest| >= 2 && MatchAt(b + rest, |b + rest| - 2, STRING_TERMINATOR) {
      MatchStartsWithEscape(b + rest, |b + rest| - 2);
      StartsBehind(b, kept, rest, |b + rest| - 2);
    }
    hide EndsAt;
    SuffixEnds(a, kept + rest, family);
  }

  lemma MatchStartsWithEscape(b: bytes, i: nat)
    requires MatchAt(b, i, STRING_TERMINATOR)
    ensures b[i] == ESC
  {
    assert b[i] == b[i..i + 2][0];
  }

  lemma SuffixEnds(a: bytes, v: bytes, family: Family)
    requires EndsAt(a + v, family, |a + v|) && v != []
    requires |a + v| >= 2 && MatchAt(a + v, |a + v| - 2, STRING_TERMINATOR) ==> |v| >= 2
    ensures EndsAt(v, family, |v|) && (a + v)[|a|..] == v
  {
    assert (a + v)[|a + v| - 1] == v[|v| - 1];
    if |v| >= 2 && MatchAt(a + v, |a| + (|v| - 2), STRING_TERMINATOR) {
      SuffixMatches(a, v, |v| - 2);
    }
  }

  lemma StartsBehind(b: bytes, kept: bytes, rest: bytes, x: nat)
    requires rest != [] && x == |b + rest| - 2 && (b + rest)[x] == ESC
    requires kept == if b != [] && b[|b| - 1] == ESC then [ESC] else []
    ensures x >= |b| - |kept|
  {
    assert x < |b| ==> (b + rest)[x] == b[x];
  }

  lemma SuffixMatches(a: bytes, v: bytes, x: nat)
    requires MatchAt(a + v, |a| + x, STRING_TERMINATOR)
    ensures MatchAt(v, x, STRING_TERMINATOR)
  {
    assert v[x..x + 2] == (a + v)[|a| + x..|a| + x + 2];
  }

  /** Any other timeout ends the mode with what is held, and input is read again. */
  lemma ImplausibleTailEnds(r: Recognizers, s: State)
    requires s.Valid() && (s.discard == Some(Osc) || s.discard == Some(StTerminated))
    requires !IsPlausibleTail(s.discard.value, s.buffer) || s.discarded + |s.buffer| > 128
    ensures Timeout(r, s).1 == [] && Settled(Timeout(r, s).0)
  {
    hide IsPlausibleTail;
  }

  /* ---- mouse reports ---- */

  /** A scan runs through parameter bytes and takes the final byte behind them. */
  lemma {:induction false} ScanThrough(b: bytes, final: byte, budget: nat, parameters: set<byte>, finals: set<byte>)
    requires |b| < budget && final in finals && final !in parameters
    requires forall i :: 0 <= i < |b| ==> b[i] in parameters
    ensures ScanTail(b + [final], budget, parameters, finals) == Scan([], budget - |b|, true)
    decreases |b|
  {
    if b == [] {
      assert [final][1..] == [];
      assert b + [final] == [final];
    } else {
      assert (b + [final])[1..] == b[1..] + [final];
      ScanThrough(b[1..], final, budget - 1, parameters, finals);
    }
  }

  /** A mouse report that a timeout cuts behind its introducer is swallowed with its rest. */
  lemma CutMouseIsSwallowed(r: Recognizers, s: State, front: bytes, rest: bytes, final: byte)
    requires Plain(s) && s.buffer == MOUSE_INTRODUCER + front && MouseTailBytes(front)
    requires MouseTailBytes(rest) && final in MOUSE_FINALS && |s.buffer| + |rest| < 128
    ensures var (t, out) := Timeout(r, s);
            && out == []
            && Push(r, t, rest + [final]) == (s.(buffer := [], discarded := 0), [])
  {
    assert s.buffer[3..] == front;
    assert IsUnfinishedMouse(s.buffer);
    var t := s.(buffer := [], discarded := |s.buffer|, discard := Some(OrphanedMouseTail));
    assert Timeout(r, s) == (t, []) by { hide MouseTailBytes, TimeoutPending; }
    ScanThrough(rest, final, Remaining(t.discarded), MOUSE_PARAMETERS, MOUSE_FINALS);
    MouseTailEnds(r, t, rest + [final]);
  }

  /** The mode takes 128 bytes, with those that were held at the timeout. When they are used up, it ends with all
      that is buffered behind them. */
  lemma {:induction false} MouseModeRunsOut(
      r: Recognizers, s: State, front: bytes, rest: bytes, behind: bytes)
    requires Plain(s) && s.buffer == MOUSE_INTRODUCER + front && MouseTailBytes(front)
    requires MouseTailBytes(rest) && |s.buffer| + |rest| == 128 && behind != []
    ensures Timeout(r, s).1 == []
    ensures Push(r, Timeout(r, s).0, rest + behind) == (s.(buffer := [], discarded := 0), [])
  {
    assert s.buffer[3..] == front;
    assert IsUnfinishedMouse(s.buffer);
    var t := s.(buffer := [], discarded := |s.buffer|, discard := Some(OrphanedMouseTail));
    assert Timeout(r, s) == (t, []) by { hide MouseTailBytes, TimeoutPending; }
    ScanRunsOut(rest, behind, MOUSE_PARAMETERS, MOUSE_FINALS);
    MouseTailEnds(r, t, rest + behind);
  }

  lemma {:induction false} ScanRunsOut(b: bytes, behind: bytes, parameters: set<byte>, finals: set<byte>)
    requires parameters !! finals && forall i :: 0 <= i < |b| ==> b[i] in parameters
    ensures ScanTail(b + behind, |b|, parameters, finals) == Scan(behind, 0, false)
    decreases |b|
  {
    if b == [] {
      assert b + behind == behind;
    } else {
      assert (b + behind)[1..] == b[1..] + behind;
      ScanRunsOut(b[1..], behind, parameters, finals);
    }
  }

  /** A longer piece of a report is dropped and leaves no mode behind. */
  lemma LongMouseIsDropped(r: Recognizers, s: State, front: bytes)
    requires Plain(s) && s.buffer == MOUSE_INTRODUCER + front && MouseTailBytes(front) && |s.buffer| > 128
    ensures Timeout(r, s).1 == [] && Settled(Timeout(r, s).0)
  {
    assert s.buffer[3..] == front;
    assert IsUnfinishedMouse(s.buffer);
    hide MouseTailBytes, TimeoutPending;
  }

  lemma {:induction false} MouseTailEnds(r: Recognizers, t: State, data: bytes)
    requires t.Valid() && t.discard == Some(OrphanedMouseTail) && t.buffer == []
    requires var scan := ScanTail(data, Remaining(t.discarded), MOUSE_PARAMETERS, MOUSE_FINALS);
             if scan.ended then scan.rest == [] else scan.rest != []
    ensures Push(r, t, data) == (t.EndDiscard(), [])
  {
    hide ScanTail;
    var full := t.Append(data);
    assert full.buffer == data;
    var done := t.EndDiscard();
    assert Step(r, full) == Next(done, []);
    hide Step;
    DrainUnfolds(r, full);
    QuietWhenEmpty(r, done);
    RestIsFixed(r, done);
    var none: seq<bytes> := [];
    assert none + none == none;
  }

  lemma {:induction false} DecimalIsShort(n: nat, digits: nat)
    requires digits >= 1 && n < Power10(digits)
    ensures |Decimal(n)| <= digits
  {
    if n >= 10 {
      DecimalIsShort(n / 10, digits - 1);
    }
  }

  function Power10(n: nat): (p: nat)
    ensures p >= 1
  {
    if n == 0 then 1 else 10 * Power10(n - 1)
  }

  /** The rest of a mouse report whose ESC was flushed alone is dropped, whatever the report says. */
  lemma OrphanIsSwallowed(r: Recognizers, s: State, e: Event)
    requires s.Valid() && s.escapeFlushed && s.buffer == []
    requires e.Mouse? && ValidKind(e.kind) && e.column < 65535 && e.row < 65535
    ensures Push(r, s, MouseBytes(e)[1..]) == (s.(escapeFlushed := false), [])
  {
    var u, b := MouseBytes(e), MouseBytes(e)[1..];
    OrphanEnds(e);
    hide MouseBytes, OrphanLen;
    var full := s.Append(b);
    assert full.buffer == b && b[|b|..] == [];
    var done := s.(escapeFlushed := false);
    assert !IsUnfinishedOrphan(b) by { FinishedIsNotUnfinished(b); }
    assert Step(r, full) == Next(done, []) by { hide IsUnfinishedOrphan, StepPlain; }
    hide Step;
    DrainUnfolds(r, full);
    QuietWhenEmpty(r, done);
    RestIsFixed(r, done);
    var none: seq<bytes> := [];
    assert none + none == none;
  }

  /** A whole mouse report behind a flushed ESC is dropped if it has at most 32 bytes; of a longer one nothing
      is lost. */
  lemma {:induction false} WholeOrphan(r: Recognizers, s: State, b: bytes)
    requires s.Valid() && s.escapeFlushed && s.buffer == []
    requires IsUtf8([ESC] + b) && IsSgrMouse([ESC] + b)
    requires forall i :: 0 <= i < |b| - 1 ==> b[i] !in MOUSE_FINALS
    ensures |b| <= 32 ==> Push(r, s, b) == (s.(escapeFlushed := false), [])
    ensures |b| > 32 ==> Flatten(Push(r, s, b).1) + Push(r, s, b).0.buffer == b
  {
    hide IsSgrMouse, IsUtf8;
    var full := s.Append(b);
    assert full.buffer == b && b[|b|..] == [] && b[..|b|] == b;
    OrphanOfAnyLength(b);
    if |b| <= 32 {
      hide OrphanLen;
      var done := s.(escapeFlushed := false);
      FinishedIsNotUnfinished(b);
      assert Step(r, full) == Next(done, []) by { hide IsUnfinishedOrphan, StepPlain; }
      hide Step;
      DrainUnfolds(r, full);
      QuietWhenEmpty(r, done);
      RestIsFixed(r, done);
      var none: seq<bytes> := [];
      assert none + none == none;
    } else {
      var given := full.(escapeFlushed := false);
      assert Step(r, full) == Step(r, given) by { hide OrphanLen, StepPlain; }
      hide Step, OrphanLen;
      DrainByStep(r, full, given);
      DrainConserves(r, given);
    }
  }

  lemma {:induction false} OrphanOfAnyLength(b: bytes)
    requires IsUtf8([ESC] + b) && IsSgrMouse([ESC] + b)
    requires forall i :: 0 <= i < |b| - 1 ==> b[i] !in MOUSE_FINALS
    ensures |b| > 2 && OrphanLen(b) == if |b| <= 32 then Some(|b|) else None
  {
    var u := [ESC] + b;
    assert u[|u| - 1] == b[|b| - 1] && b[..|b|] == b by { assert |u| > 3; }
    hide IsSgrMouse, IsUtf8;
    FinalIsFirst(b);
  }

  lemma FinishedIsNotUnfinished(b: bytes)
    requires OrphanLen(b) == Some(|b|) && |b| > 2
    ensures !IsUnfinishedOrphan(b)
  {
    if IsUnfinishedOrphan(b) {
      UnfinishedOrphanHasNoEnd(b);
    }
  }

  lemma OrphanEnds(e: Event)
    requires e.Mouse? && ValidKind(e.kind) && e.column < 65535 && e.row < 65535
    ensures |MouseBytes(e)| > 3
    ensures var b := MouseBytes(e)[1..]; OrphanLen(b) == Some(|b|)
  {
    hide MouseBytes, IsSgrMouse, IsUtf8, SgrMouse;
    MouseIsAscii(e);
    var u := MouseBytes(e);
    var b := u[1..];
    MouseParses(e);
    AsciiIsUtf8(u);
    assert [ESC] + b == u && b[..|b|] == b;
    FinalIsFirst(b);
  }

  lemma FinalIsFirst(b: bytes)
    requires b != [] && b[|b| - 1] in MOUSE_FINALS && forall i :: 0 <= i < |b| - 1 ==> b[i] !in MOUSE_FINALS
    ensures Terminator(b, OrphanedMouseTail) == Some(|b|)
  {
    hide IndexIn;
  }

  /** A written report: short, in ASCII, and ended by its only final byte. */
  lemma MouseIsAscii(e: Event)
    requires e.Mouse? && ValidKind(e.kind) && e.column < 65535 && e.row < 65535
    ensures var u := MouseBytes(e);
            && 4 <= |u| <= 19 && u[0] == ESC && u[|u| - 1] in MOUSE_FINALS
            && (forall i :: 0 <= i < |u| - 1 ==> u[i] !in MOUSE_FINALS)
            && (forall i :: 0 <= i < |u| ==> u[i] < 0x80)
  {
    hide Fields, ButtonCode, ModifierCode;
    var cb := ButtonCode(e.kind) + ModifierCode(e.shift, e.alt, e.control);
    CodeDecodes(e.kind, e.shift, e.alt, e.control);
    FieldsParse(cb, e.column + 1, e.row + 1);
    var body, final := Fields(cb, e.column + 1, e.row + 1), if e.kind.Up? then 0x6d else 0x4d;
    FieldsAreShort(cb, e.column + 1, e.row + 1);
    assert MouseBytes(e) == MOUSE_INTRODUCER + body + [final];
    ReportBytes(body, final);
  }

  lemma ReportBytes(body: bytes, final: byte)
    requires MouseTailBytes(body) && final in MOUSE_FINALS
    ensures var u := MOUSE_INTRODUCER + body + [final];
            && u[0] == ESC && u[|u| - 1] in MOUSE_FINALS
            && (forall i :: 0 <= i < |u| - 1 ==> u[i] !in MOUSE_FINALS)
            && (forall i :: 0 <= i < |u| ==> u[i] < 0x80)
  {
    var u := MOUSE_INTRODUCER + body + [final];
    forall i | 0 <= i < |u| - 1
      ensures u[i] !in MOUSE_FINALS && u[i] < 0x80
    {
      if i >= 3 {
        assert u[i] == body[i - 3];
      } else {
        assert u[i] == MOUSE_INTRODUCER[i];
      }
    }
  }

  lemma FieldsAreShort(a: nat, b: nat, c: nat)
    requires a <= 255 && b <= 65535 && c <= 65535
    ensures |Fields(a, b, c)| <= 15
  {
    hide Decimal;
    PowersOfTen();
    DecimalIsShort(a, 3);
    DecimalIsShort(b, 5);
    DecimalIsShort(c, 5);
  }

  lemma PowersOfTen()
    ensures Power10(3) == 1000 && Power10(5) == 100000
  {
    assert Power10(1) == 10 && Power10(2) == 100 && Power10(3) == 1000 && Power10(4) == 10000;
  }

  /* ---- replies of the terminal ---- */

  /** The tail of a reply (section 5.4 of ECMA-48): bytes from 2/0 to 3/15, and a final byte from 4/0 to 7/14,
      which goes with it. Any other byte ends the tail and stays. */
  lemma {:induction false} SwallowsThrough(b: bytes, next: byte, budget: nat)
    requires |b| < budget && AllParameters(b) && !(0x20 <= next <= 0x3f)
    ensures Swallowed(b + [next], budget) == Some(if 0x40 <= next <= 0x7e then |b| + 1 else |b|)
    decreases |b|
  {
    if b == [] {
      assert b + [next] == [next];
    } else {
      assert (b + [next])[1..] == b[1..] + [next];
      SwallowsThrough(b[1..], next, budget - 1);
    }
  }

  predicate AllParameters(b: bytes) { forall i :: 0 <= i < |b| ==> 0x20 <= b[i] <= 0x3f }

  lemma ReplyRestIsSwallowed(r: Recognizers, t: State, b: bytes, final: byte)
    requires SkipsReply(t) && t.discarded == 0 && |b| < 128
    requires 0x40 <= final <= 0x7e && AllParameters(b)
    ensures Push(r, t, b + [final]) == (t.EndDiscard(), [])
  {
    SwallowsThrough(b, final, 128);
    PushWhileSkipping(r, t, b + [final]);
    var w := b + [final];
    assert w[|w|..] == [];
    EmptyPush(r, t.EndDiscard());
    hide Swallowed, Drain;
  }

  /** A colour scheme report that a timeout cuts is swallowed with its rest, wherever it is cut behind `CSI ?`. */
  lemma CutSchemeIsSwallowed(r: Recognizers, s: State, dark: bool, k: nat)
    requires Plain(s) && 3 <= k < 9 && s.buffer == SchemeBytes(dark)[..k]
    ensures var (t, out) := Timeout(r, s);
            out == [] && Push(r, t, SchemeBytes(dark)[k..]) == (s.(buffer := [], discarded := 0), [])
  {
    var u := SchemeBytes(dark);
    var t := s.(buffer := [], discarded := 0, discard := Some(HostReplyCsi));
    SchemePrefix(dark, k);
    assert Timeout(r, s) == (t, []) by {
      assert s.buffer[1] == u[1] == 0x5b && s.buffer[2] == u[2] == 0x3f;
      assert |s.buffer| > 2 && u[0] == ESC;
      SchemeIsNothingElse(s.buffer);
      hide IsUnfinishedSchemeReport, IsUnfinishedCellSizeReport, IsUnfinishedMouse, IsUnfinishedPaste,
           IsUnfinishedColorReply;
    }
    assert u[k..] == u[k..8] + [0x6e];
    assert forall i :: 0 <= i < 8 - k ==> u[k..8][i] == u[k + i];
    ReplyRestIsSwallowed(r, t, u[k..8], 0x6e);
    hide Drain;
    assert t.EndDiscard() == s.(buffer := [], discarded := 0);
  }

  lemma SchemePrefix(dark: bool, k: nat)
    requires 3 <= k < 9
    ensures IsUnfinishedSchemeReport(SchemeBytes(dark)[..k])
  {
    var u := SchemeBytes(dark);
    assert u == if dark then DARK_REPORT else LIGHT_REPORT;
    assert u[..k][..3] == [0x1b, 0x5b, 0x3f];
  }

  lemma SchemeIsNothingElse(b: bytes)
    requires |b| > 2 && b[0] == ESC && b[1] == 0x5b && b[2] == 0x3f
    ensures !IsUnfinishedMouse(b) && !IsUnfinishedPaste(b) && !IsUnfinishedColorReply(b)
    ensures !IsUnfinishedCellSizeReport(b) && b != CSI
  {
    hide FindSubFrom, Terminator;
    assert !(PASTE_START <= b) && |b| != |CSI|;
    if CSI <= b && b[|b| - 1] != 0x74 {
      var f := Split(b[2..], SEMICOLON)[0];
      FirstField(b[2..], SEMICOLON);
    }
  }

  /** A first field, if not empty, starts as the string does. */
  lemma {:induction false} FirstField(b: bytes, sep: byte)
    requires b != []
    ensures var f := Split(b, sep)[0]; f != [] ==> f[0] == b[0]
  {
  }

  lemma {:induction false} SplitOne(a: bytes)
    requires SEMICOLON !in a
    ensures Split(a, SEMICOLON) == [a]
  {
    LastField(a);
  }

  /** A cell size report cut behind its first parameter byte looks like one. */
  lemma CellSizePrefix(height: nat, width: nat, k: nat)
    requires 3 <= k < |CellSizeBytes(height, width)|
    ensures var b := CellSizeBytes(height, width)[..k]; IsUnfinishedCellSizeReport(b) && b[2] == 0x36 && b[0] == ESC
  {
    hide Decimal, IsUnfinishedCellSizeReport, MayBeCellSize;
    var u, h, w := CellSizeBytes(height, width), Decimal(height), Decimal(width);
    SixIsSix();
    DecimalReads(height);
    DecimalReads(width);
    var whole := CSI + ([0x36] + [SEMICOLON] + h + [SEMICOLON] + w);
    assert u == whole + [0x74];
    assert u[..k] == whole[..k];
    CellSizeFront(h, w, k);
    WrittenCellSize(u[..k]);
  }

  lemma CellSizeFront(h: bytes, w: bytes, k: nat)
    requires AllDigits(h) && h != [] && AllDigits(w) && 3 <= k <= 5 + |h| + |w|
    ensures MayBeCellSize((CSI + ([0x36] + [SEMICOLON] + h + [SEMICOLON] + w))[..k])
  {
    hide AllDigits;
    var b := (CSI + ([0x36] + [SEMICOLON] + h + [SEMICOLON] + w))[..k];
    if k == 3 {
      assert b == CSI + [0x36];
    } else if k <= 4 + |h| {
      DigitsInFront(h, k - 4);
      assert b == CSI + ([0x36] + [SEMICOLON] + h[..k - 4]);
    } else {
      DigitsInFront(w, k - 5 - |h|);
      assert b == CSI + ([0x36] + [SEMICOLON] + h + [SEMICOLON] + w[..k - 5 - |h|]);
    }
  }

  lemma DigitsInFront(h: bytes, n: nat)
    requires AllDigits(h) && n <= |h|
    ensures AllDigits(h[..n])
  {
  }

  /** A cell size report that is due and cut by a timeout, wherever behind its first parameter byte, is swallowed with
      its rest, and no longer waited for. */
  lemma CutCellSizeIsSwallowed(r: Recognizers, s: State, height: nat, width: nat, k: nat)
    requires Plain(s) && s.cellSizeAwaited > 0 && height <= U32 && width <= U32
    requires 3 <= k < |CellSizeBytes(height, width)| && s.buffer == CellSizeBytes(height, width)[..k]
    ensures var (t, out) := Timeout(r, s);
            && out == []
            && Push(r, t, CellSizeBytes(height, width)[k..])
               == (s.(buffer := [], discarded := 0, cellSizeAwaited := 0, heldEscape := false), [])
  {
    hide CellSizeBytes, Drain;
    var u := CellSizeBytes(height, width);
    CellSizePrefix(height, width, k);
    CellSizeTail(height, width, k);
    var t := s.(cellSizeAwaited := 0, heldEscape := false, buffer := [], discarded := 0, discard := Some(HostReplyCsi));
    CellSizeTimeout(r, s);
    ReplyRestIsSwallowed(r, t, u[k..|u| - 1], 0x74);
    assert t.EndDiscard() == s.(buffer := [], discarded := 0, cellSizeAwaited := 0, heldEscape := false);
  }

  lemma CellSizeTimeout(r: Recognizers, s: State)
    requires Plain(s) && s.cellSizeAwaited > 0 && IsUnfinishedCellSizeReport(s.buffer) && s.buffer[2] == 0x36
    ensures Timeout(r, s)
            == (s.(cellSizeAwaited := 0, heldEscape := false, buffer := [], discarded := 0,
                   discard := Some(HostReplyCsi)), [])
  {
    assert s.buffer[1] == 0x5b;
    assert !IsUnfinishedMouse(s.buffer) && !IsUnfinishedPaste(s.buffer) && !IsUnfinishedColorReply(s.buffer) by {
      hide FindSubFrom, Terminator;
      assert PASTE_START[2] != 0x36;
    }
    hide IsUnfinishedMouse, IsUnfinishedPaste, IsUnfinishedColorReply, IsUnfinishedCellSizeReport;
  }

  lemma CellSizeTail(height: nat, width: nat, k: nat)
    requires 3 <= k < |CellSizeBytes(height, width)| && height <= U32 && width <= U32
    ensures var u := CellSizeBytes(height, width);
            && u[k..] == u[k..|u| - 1] + [0x74] && |u[k..|u| - 1]| < 128
            && AllParameters(u[k..|u| - 1])
  {
    hide Decimal, Split;
    var u, body := CellSizeBytes(height, width), Fields(6, height, width);
    SixIsSix();
    FieldsParse(6, height, width);
    WidestNumber();
    DecimalIsShort(height, 10);
    DecimalIsShort(width, 10);
    var rest := u[k..|u| - 1];
    assert forall i :: 0 <= i < |rest| ==> rest[i] == body[k + i - 2];
  }

  lemma WidestNumber()
    ensures Power10(10) > U32
  {
    assert Power10(5) == 100000 by { PowersOfTen(); }
    assert Power10(6) == 1000000 && Power10(7) == 10000000 && Power10(8) == 100000000;
    assert Power10(9) == 1000000000 && Power10(10) == 10000000000;
  }
}
