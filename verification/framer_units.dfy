/** Self-delimiting units of the input stream: sequences that end themselves are cut exactly where
    they end, and a chunk cut off the stream reads as the same event on its own. */
module FramerUnits {
  import opened Options
  import opened Bytes
  import opened Utf8
  import opened InputSequences
  import opened InputFramer
  import opened FramerScheduling
  import opened FramerDelivery

  /** A unit: the parser reads it whole, and it is not a doubled escape. */
  predicate IsUnit(r: Recognizers, u: bytes) {
    u != [] && !(DOUBLED_ESCAPE <= u) && ExtractOne(r, u).Some? && ExtractOne(r, u).value.consumed == |u|
  }

  lemma UnitStep(r: Recognizers, s: State, u: bytes, later: bytes)
    requires Plain(s) && IsUnit(r, u) && s.buffer == u + later
    ensures var o := Step(r, s); o.Next? && o.emitted == [u] && Plain(o.state) && o.state.buffer == later
  {
    ExtractStable(r, u, later);
    assert s.buffer[..|u|] == u && s.buffer[|u|..] == later;
    LoneEscapeIsHeld(r);
    assert u != [ESC] && u[0] == s.buffer[0];
    assert !(DOUBLED_ESCAPE <= s.buffer) by {
      if |u| >= 2 {
        PrefixStable(DOUBLED_ESCAPE, u, later);
      } else {
        assert u == [u[0]];
      }
    }
    var e := ExtractOne(r, s.buffer).value.event;
    CountReplyAppends(s, e, []);
    hide ExtractOne, CountReply;
  }

  /** Any sequence of units, however it is cut into pushes, is delivered as exactly these units. */
  lemma {:induction false} UnitsAreCut(r: Recognizers, s: State, units: seq<bytes>)
    requires Plain(s) && s.buffer == Flatten(units) && forall i :: 0 <= i < |units| ==> IsUnit(r, units[i])
    ensures Drain(r, s).1 == units && Drain(r, s).0.buffer == []
    decreases |units|
  {
    hide Step, IsUnit;
    DrainUnfolds(r, s);
    if units == [] {
      QuietWhenEmpty(r, s);
    } else {
      UnitStep(r, s, units[0], Flatten(units[1..]));
      UnitsAreCut(r, Step(r, s).state, units[1..]);
      assert [units[0]] + units[1..] == units;
    }
  }

  lemma {:induction false} UnitsUnderSchedules(r: Recognizers, s: State, units: seq<bytes>, parts: seq<bytes>)
    requires Plain(s) && s.buffer == [] && forall i :: 0 <= i < |units| ==> IsUnit(r, units[i])
    requires parts != [] && Flatten(parts) == Flatten(units)
    ensures PushAll(r, s, parts).1 == units && PushAll(r, s, parts).0.buffer == []
  {
    hide Drain, IsUnit;
    ScheduleIndependence(r, s, parts);
    assert [] + Flatten(units) == Flatten(units);
    UnitsAreCut(r, s.Append(Flatten(units)), units);
  }

  /* ---- the unit grammars ---- */

  /** A sequence behind a single ESC that ends itself is a unit. */
  lemma {:induction false} SequenceIsUnit(r: Recognizers, u: bytes)
    requires |u| > 1 && u[0] == ESC && u[1] != ESC && SequenceLen(u) == Some(|u|) && IsUtf8(u)
    ensures PASTE_START <= u || IsUnit(r, u)
  {
    hide SequenceLen, IsUtf8, CsiLen, IsSgrMouse;
    assert !(DOUBLED_ESCAPE <= u);
    assert u[..|u|] == u;
    assert EscapeLen(u) == SequenceLen(u);
  }

  /** A control sequence (section 5.4 of ECMA-48): parameter and intermediate bytes, then one final byte. */
  lemma ControlSequenceIsUnit(r: Recognizers, parameters: bytes, final: byte)
    requires forall i :: 0 <= i < |parameters| ==> 0x20 <= parameters[i] <= 0x3f
    requires 0x40 <= final <= 0x7e
    requires parameters != [] ==> parameters[0] != 0x3c
    requires CSI + parameters + [final] != PASTE_START
    ensures IsUnit(r, CSI + parameters + [final])
  {
    var u := CSI + parameters + [final];
    AsciiIsUtf8(u);
    CsiEnds(CSI + parameters, final, CSI_FINALS);
    assert |u| == 3 + |parameters| && u[1] == 0x5b && u[2] != 0x3c;
    assert SequenceLen(u) == Some(|u|) by {
      hide IndexIn;
    }
    SequenceIsUnit(r, u);
    assert |u| > 6 ==> u[5] == parameters[3] != PASTE_START[5];
    assert |u| == 6 && PASTE_START <= u ==> u == PASTE_START;
  }

  lemma CsiEnds(head: bytes, final: byte, finals: set<byte>)
    requires |head| >= 2 && final in finals && forall i :: 2 <= i < |head| ==> head[i] !in finals
    ensures CsiLen(head + [final], finals) == Some(|head| + 1)
  {
    hide IndexIn;
    var u := head + [final];
    assert u[|head|] in finals;
    assert forall i :: 2 <= i < |head| ==> u[i] == head[i];
  }

  /** An SGR mouse report, well formed or not. */
  lemma MouseReportIsUnit(r: Recognizers, tail: bytes, final: byte)
    requires MouseTailBytes(tail) && final in MOUSE_FINALS
    ensures IsUnit(r, MOUSE_INTRODUCER + tail + [final])
  {
    var u := MOUSE_INTRODUCER + tail + [final];
    AsciiIsUtf8(u);
    CsiEnds(MOUSE_INTRODUCER + tail, final, MOUSE_FINALS);
    assert u[1] == 0x5b && u[2] == 0x3c && MOUSE_INTRODUCER <= u;
    assert SequenceLen(u) == Some(|u|) by {
      hide IndexIn;
    }
    SequenceIsUnit(r, u);
  }

  lemma BellEnds(u: bytes)
    requires |u| >= 3 && u[|u| - 1] == 0x07
    requires forall i :: 1 <= i < |u| - 1 ==> u[i] != ESC && u[i] != 0x07
    requires u[0] == ESC && u[1] != 0x5c
    ensures Terminator(u, Osc) == Some(|u|)
  {
    hide FindSubFrom, IndexIn;
    var bell: set<byte> := {0x07};
    assert u[|u| - 1] in bell;
    forall i: nat
      ensures !MatchAt(u, i, STRING_TERMINATOR)
    {
      if i + 2 <= |u| {
        assert u[i..i + 2] == [u[i], u[i + 1]];
      }
    }
  }

  lemma BellSequence(u: bytes)
    requires |u| >= 3 && u[0] == ESC && u[1] == 0x5d && u[|u| - 1] == 0x07
    requires forall i :: 1 <= i < |u| - 1 ==> u[i] != ESC && u[i] != 0x07
    ensures SequenceLen(u) == Some(|u|)
  {
    BellEnds(u);
    hide Terminator, CsiLen, IsUtf8;
    assert ControlFamily(u) == Some(Osc);
  }

  /** An operating system command ended by BEL (section 5.6 of ECMA-48, with the usual terminal extension). */
  lemma {:induction false} BellStringIsUnit(r: Recognizers, body: bytes)
    requires IsUtf8([ESC, 0x5d] + body + [0x07])
    requires forall i :: 0 <= i < |body| ==> body[i] != ESC && body[i] != 0x07
    ensures IsUnit(r, [ESC, 0x5d] + body + [0x07])
  {
    hide IsUtf8, SequenceLen, IsUnit;
    var u := [ESC, 0x5d] + body + [0x07];
    assert u[0] == ESC && u[1] == 0x5d && u[|u| - 1] == 0x07;
    assert forall i :: 1 <= i < |u| - 1 ==> u[i] != ESC && u[i] != 0x07;
    BellSequence(u);
    SequenceIsUnit(r, u);
    assert PASTE_START[1] != u[1];
  }

  /** The bytes that open a control string behind ESC: OSC, DCS, APC, PM and SOS. */
  const OPENERS: set<byte> := {0x5d, 0x50, 0x5f, 0x5e, 0x58}

  lemma StringEnds(u: bytes)
    requires |u| >= 4 && u[0] == ESC && u[1] in OPENERS && u[|u| - 2] == ESC && u[|u| - 1] == 0x5c
    requires forall i :: 2 <= i < |u| - 2 ==> u[i] != ESC && (u[1] == 0x5d ==> u[i] != 0x07)
    ensures ControlFamily(u).Some? && Terminator(u, ControlFamily(u).value) == Some(|u|)
  {
    hide FindSubFrom, IndexIn;
    assert u[|u| - 2..|u|] == STRING_TERMINATOR;
    assert MatchAt(u, |u| - 2, STRING_TERMINATOR);
    forall i: nat
      ensures i != |u| - 2 ==> !MatchAt(u, i, STRING_TERMINATOR)
    {
      if i + 2 <= |u| {
        assert u[i..i + 2] == [u[i], u[i + 1]];
      }
    }
  }

  /** A control string of any kind, ended by the string terminator (section 5.6 of ECMA-48). */
  lemma {:induction false} StringIsUnit(r: Recognizers, opener: byte, body: bytes)
    requires opener in OPENERS && IsUtf8([ESC, opener] + body + STRING_TERMINATOR)
    requires forall i :: 0 <= i < |body| ==> body[i] != ESC && (opener == 0x5d ==> body[i] != 0x07)
    ensures IsUnit(r, [ESC, opener] + body + STRING_TERMINATOR)
  {
    hide IsUtf8, IsUnit;
    var u := [ESC, opener] + body + STRING_TERMINATOR;
    assert u[0] == ESC && u[1] == opener && u[|u| - 2] == ESC && u[|u| - 1] == 0x5c;
    assert forall i :: 2 <= i < |u| - 2 ==> u[i] == body[i - 2];
    StringEnds(u);
    assert SequenceLen(u) == Some(|u|) by { hide Terminator, CsiLen; }
    hide SequenceLen;
    SequenceIsUnit(r, u);
    assert PASTE_START[1] != u[1];
  }

  /** A function key behind SS3: ESC, `O`, and one byte. */
  lemma FunctionKeyIsUnit(r: Recognizers, key: byte)
    requires key < 0x80
    ensures IsUnit(r, [ESC, 0x4f, key])
  {
    hide IsUnit;
    var u := [ESC, 0x4f, key];
    AsciiIsUtf8(u);
    assert SequenceLen(u) == Some(3);
    SequenceIsUnit(r, u);
  }

  /** A character behind ESC, as the Alt key sends it: a unit, unless it opens something longer. */
  lemma AltCharacterIsUnit(r: Recognizers, c: bytes)
    requires IsChar(c) && c[0] != ESC && c[0] != 0x5b && c[0] != 0x4f && c[0] !in OPENERS
    ensures IsUnit(r, [ESC] + c)
  {
    hide IsUnit;
    var u := [ESC] + c;
    assert u[1] == c[0] && u[1..] == c && u[1..1 + |c|] == c;
    FirstCharLenIsHead(c);
    assert c[..|c|] == c;
    assert ReadHead(u) == Whole(1);
    assert c[|c|..] == [] && IsUtf8(c[|c|..]);
    assert IsUtf8(u);
    assert SequenceLen(u) == Some(|u|) by { hide IsUtf8, ReadHead; }
    SequenceIsUnit(r, u);
  }

  /** A bracketed paste is a unit exactly when its text is valid UTF-8. */
  lemma {:induction false} PasteIsUnit(r: Recognizers, text: bytes)
    requires FindSub(text, PASTE_END).None?
    ensures IsUnit(r, PASTE_START + text + PASTE_END) <==> IsUtf8(text)
  {
    var u := PASTE_START + text + PASTE_END;
    PasteEndIsFirst(text);
    hide FindSubFrom, IsUtf8;
    assert u[6..6 + |text|] == text;
    assert u[1] == 0x5b && PASTE_START <= u;
  }

  /* ---- reading a chunk again ---- */

  predicate AllEscapes(b: bytes) { forall i :: 0 <= i < |b| ==> b[i] == ESC }

  lemma {:induction false} EscapesNeverEnd(b: bytes)
    requires b != [] && AllEscapes(b)
    ensures EscapeLen(b).None?
    decreases |b|
  {
    if |b| > 1 {
      assert !(DOUBLED_MOUSE <= b) by {
        if |b| > 2 {
          assert b[2] != DOUBLED_MOUSE[2];
        }
      }
      EscapesNeverEnd(b[1..]);
      assert DOUBLED_ESCAPE <= b;
    }
  }

  lemma TerminatorOfPrefix(b: bytes, family: Family)
    requires Terminator(b, family).Some?
    ensures Terminator(b[..Terminator(b, family).value], family) == Terminator(b, family)
  {
    hide FindSubFrom, IndexIn;
    var n := Terminator(b, family).value;
    var p := b[..n];
    assert p + b[n..] == b;
    var st, bel := FindSub(b, STRING_TERMINATOR), IndexIn(b, 0, {0x07});
    var m := IndexIn(b, 0, MOUSE_FINALS);
    if st.Some? && st.value + 2 <= n {
      assert p[st.value..st.value + 2] == b[st.value..st.value + 2];
      assert MatchAt(p, st.value, STRING_TERMINATOR);
      FindSubStable(p, STRING_TERMINATOR, b[n..]);
    }
    if bel.Some? && bel.value < n {
      assert p[bel.value] == b[bel.value];
      IndexInStable(p, 0, {0x07}, b[n..]);
    }
    if m.Some? && m.value < n {
      assert p[m.value] == b[m.value];
      IndexInStable(p, 0, MOUSE_FINALS, b[n..]);
    }
    if FindSub(p, STRING_TERMINATOR).Some? {
      FindSubStable(p, STRING_TERMINATOR, b[n..]);
    }
    if IndexIn(p, 0, {0x07}).Some? {
      IndexInStable(p, 0, {0x07}, b[n..]);
    }
  }

  lemma CsiLenOfPrefix(b: bytes, finals: set<byte>, n: nat)
    requires CsiLen(b, finals).Some? && CsiLen(b, finals).value <= n <= |b|
    ensures CsiLen(b[..n], finals) == CsiLen(b, finals)
  {
    hide IndexIn;
    var i := IndexIn(b, 2, finals).value;
    assert b[..n][i] == b[i];
    assert b[..n] + b[n..] == b;
    IndexInStable(b[..n], 2, finals, b[n..]);
  }

  lemma SequenceLenOfPrefix(b: bytes)
    requires |b| > 1 && b[0] == ESC && SequenceLen(b).Some?
    ensures SequenceLen(b).value > 1
    ensures SequenceLen(b[..SequenceLen(b).value]) == SequenceLen(b)
  {
    hide IndexIn, Terminator, IsUtf8;
    var n := SequenceLen(b).value;
    var p := b[..n];
    if b[1] == 0x5b {
      CsiLenOfPrefix(b, if MOUSE_INTRODUCER <= b then MOUSE_FINALS else CSI_FINALS, n);
      assert p[1] == b[1] && p[2] == b[2];
    } else if ControlFamily(b).Some? {
      ControlLongerThanOne(b);
      TerminatorOfPrefix(b, ControlFamily(b).value);
      assert p[1] == b[1];
    } else {
      assert p[1] == b[1];
      assert p[1..n] == b[1..n];
    }
  }

  lemma {:induction false} SingleEscapeOfPrefix(b: bytes)
    requires |b| > 1 && b[0] == ESC && b[1] != ESC && EscapeLen(b).Some?
    ensures EscapeLen(b).value > 1
    ensures EscapeLen(b[..EscapeLen(b).value]) == EscapeLen(b)
  {
    hide SequenceLen, CsiLen, IsUtf8, IsSgrMouse;
    assert !(DOUBLED_ESCAPE <= b);
    SequenceLenOfPrefix(b);
    var p := b[..EscapeLen(b).value];
    assert p[1] == b[1];
    assert !(DOUBLED_ESCAPE <= p);
  }

  lemma ControlLongerThanOne(b: bytes)
    requires ControlFamily(b).Some? && Terminator(b, ControlFamily(b).value).Some?
    ensures Terminator(b, ControlFamily(b).value).value > 1
  {
    hide FindSubFrom, IndexIn;
    assert b[0] == ESC;
  }

  /** The length found in the stream is the length found in the chunk, unless the chunk is ESC bytes alone. */
  lemma {:induction false} EscapeLenOfPrefix(b: bytes)
    requires b != [] && b[0] == ESC && EscapeLen(b).Some?
    ensures var p := b[..EscapeLen(b).value];
            EscapeLen(p) == if AllEscapes(p) then None else EscapeLen(b)
    decreases |b|
  {
    hide CsiLen, IsUtf8, IsSgrMouse, SequenceLen;
    var n := EscapeLen(b).value;
    var p := b[..n];
    if AllEscapes(p) {
      EscapesNeverEnd(p);
    } else if b[1] != ESC {
      SingleEscapeOfPrefix(b);
    } else {
      DoubledEscapeOfPrefix(b);
    }
  }

  lemma {:induction false} DoubledEscapeOfPrefix(b: bytes)
    requires |b| > 1 && b[0] == ESC && b[1] == ESC && EscapeLen(b).Some? && !AllEscapes(b[..EscapeLen(b).value])
    ensures EscapeLen(b[..EscapeLen(b).value]) == EscapeLen(b)
    decreases |b|, 0
  {
    hide CsiLen, IsUtf8, IsSgrMouse, EscapeLen;
    var n := EscapeLen(b).value;
    var p, tail := b[..n], b[1..];
    DoubledEscapeLength(b);
    assert p[1..] == tail[..n - 1];
    assert !AllEscapes(tail[..n - 1]) by {
      assert forall i :: 1 <= i < n ==> p[i] == tail[..n - 1][i - 1];
    }
    EscapeLenOfPrefix(tail);
    assert n > 2 by { assert tail[..n - 1][0] == ESC; }
    assert p[1] == b[1];
    DoubledEscapeCases(b);
    DoubledEscapeCases(p);
    if DOUBLED_MOUSE <= b {
      DoubledMouseIsSequence(b);
      CsiLenOfPrefix(tail, MOUSE_FINALS, n - 1);
      assert b[1..n] == p[1..n];
    } else {
      assert !(DOUBLED_MOUSE <= p);
    }
  }

  /** A doubled escape whose unit is not the outer ESC alone: the inner sequence, plus one. */
  lemma {:induction false} DoubledEscapeLength(b: bytes)
    requires |b| > 1 && b[0] == ESC && b[1] == ESC && EscapeLen(b).Some? && !AllEscapes(b[..EscapeLen(b).value])
    ensures EscapeLen(b).value > 1 && EscapeLen(b[1..]) == Some(EscapeLen(b).value - 1)
    ensures DOUBLED_MOUSE <= b ==> var n := EscapeLen(b).value; IsUtf8(b[1..n]) && !IsSgrMouse(b[1..n])
  {
    hide CsiLen, IsUtf8, IsSgrMouse, EscapeLen;
    DoubledEscapeCases(b);
    if DOUBLED_MOUSE <= b {
      DoubledMouseIsSequence(b);
    }
  }

  /** What a doubled escape is cut to, case by case. */
  lemma {:induction false} DoubledEscapeCases(b: bytes)
    requires |b| > 1 && b[0] == ESC && b[1] == ESC
    ensures var rest := EscapeLen(b[1..]);
            !(DOUBLED_MOUSE <= b) ==> EscapeLen(b) == if rest.Some? then Some(rest.value + 1) else None
    ensures DOUBLED_MOUSE <= b ==>
              var n := CsiLen(b[1..], MOUSE_FINALS);
              EscapeLen(b) == if n.None? || !IsUtf8(b[1..1 + n.value]) then None
                              else if IsSgrMouse(b[1..1 + n.value]) then Some(1)
                              else Some(1 + n.value)
  {
    hide CsiLen, IsUtf8, IsSgrMouse, SequenceLen;
    assert DOUBLED_ESCAPE <= b;
    if DOUBLED_MOUSE <= b {
      DoubledMouseIsSequence(b);
    }
  }

  /** The extractor finds a chunk cut off the stream again, all of it, exactly when it is not made of ESC only. */
  lemma ChunkExtractsAgain(r: Recognizers, b: bytes)
    requires ExtractOne(r, b).Some?
    ensures var x := ExtractOne(r, b).value;
            ExtractOne(r, b[..x.consumed]) == Some(x) <==> !AllEscapes(b[..x.consumed])
  {
    var x := ExtractOne(r, b).value;
    var p := b[..x.consumed];
    assert p + b[x.consumed..] == b;
    assert p[0] == b[0];
    if PASTE_START <= b {
      var end := FindSub(b, PASTE_END).value;
      assert p[1] == b[1] == PASTE_START[1];
      assert p[end..end + 6] == b[end..end + 6];
      assert MatchAt(p, end, PASTE_END);
      FindSubStable(p, PASTE_END, b[x.consumed..]);
      assert p[6..end] == b[6..end];
      assert PASTE_START <= p;
    } else {
      assert !(PASTE_START <= p);
      assert p[..|p|] == p;
      if b[0] == ESC {
        EscapeLenOfPrefix(b);
      } else {
        assert b[..x.consumed] == p;
      }
    }
  }

  /** The second reading of a chunk by the event framer: a bare ESC is the Esc key, any other chunk is given to
      the extractor once more. */
  function ReadChunk(r: Recognizers, chunk: bytes): Option<Event> {
    if chunk == [ESC] then Some(Key)
    else match ExtractOne(r, chunk) case None => None case Some(x) => Some(x.event)
  }

  /** A chunk that the second reading cannot make out. */
  predicate BareEscapes(chunk: bytes) { AllEscapes(chunk) && |chunk| >= 2 }

  /** The key parser takes a bare ESC as a key, and it is no colour reply. */
  predicate EscIsKey(r: Recognizers) { r.key([ESC]) && !r.color([ESC]) }

  lemma BareEscapesAreNotRead(r: Recognizers, chunk: bytes)
    requires BareEscapes(chunk)
    ensures ReadChunk(r, chunk).None?
  {
    EscapesNeverEnd(chunk);
    assert chunk[1] != PASTE_START[1];
  }

  lemma BareEscapeIsKey(r: Recognizers)
    requires EscIsKey(r)
    ensures ClassifyEscape(r, [ESC]) == Key
  {
  }

  /** The second reading loses the event of a chunk if and only if the chunk is two or more ESC
      bytes and nothing else; every other chunk is read as the event that it was cut off for. */
  lemma ChunkReadsAgain(r: Recognizers, b: bytes)
    requires ExtractOne(r, b).Some?
    ensures var x := ExtractOne(r, b).value; var chunk := b[..x.consumed];
            && (ReadChunk(r, chunk).None? <==> BareEscapes(chunk))
            && (EscIsKey(r) ==> (ReadChunk(r, chunk) == Some(x.event) <==> !BareEscapes(chunk)))
            && (chunk != [ESC] ==> (ReadChunk(r, chunk) == Some(x.event) <==> !BareEscapes(chunk)))
  {
    ChunkExtractsAgain(r, b);
    var x := ExtractOne(r, b).value;
    var chunk := b[..x.consumed];
    if BareEscapes(chunk) {
      BareEscapesAreNotRead(r, chunk);
    } else if AllEscapes(chunk) {
      assert chunk == [ESC];
      if EscIsKey(r) {
        BareEscapeIsKey(r);
        LoneEscapeEvent(r, b);
      }
    }
    hide ExtractOne, ClassifyEscape;
  }

  lemma LoneEscapeEvent(r: Recognizers, b: bytes)
    requires ExtractOne(r, b).Some? && b[..ExtractOne(r, b).value.consumed] == [ESC]
    ensures ExtractOne(r, b).value.event == ClassifyEscape(r, [ESC])
  {
    hide EscapeLen, ClassifyEscape, IsUtf8, FindSubFrom;
    assert b[0] == [ESC][0];
  }

  /** When doubled escapes are split, no chunk is two ESC bytes. */
  lemma SplitPolicyHasNoBareEscapes(r: Recognizers, b: bytes)
    requires ExtractOne(r, b).Some? && !(DOUBLED_ESCAPE <= b)
    ensures !BareEscapes(b[..ExtractOne(r, b).value.consumed])
  {
    hide ExtractOne;
    var chunk := b[..ExtractOne(r, b).value.consumed];
    assert |chunk| >= 2 ==> b[0] == chunk[0] && b[1] == chunk[1];
  }

  lemma StepReadsAgain(r: Recognizers, s: State)
    requires Step(r, s).Next? && Step(r, s).emitted != []
    ensures |Step(r, s).emitted| == 1
    ensures var chunk := Step(r, s).emitted[0];
            && (ReadChunk(r, chunk).None? <==> BareEscapes(chunk))
            && (s.splitEscape ==> !BareEscapes(chunk))
    ensures Step(r, s).state.splitEscape == s.splitEscape
  {
    hide ExtractOne, OrphanLen, IsUnfinishedOrphan, StepDiscard, BareEscapes, ReadChunk;
    if s.discard.Some? {
      DiscardEmitsNothing(s);
      DiscardEmitsNothing(s.(escapeFlushed := false));
    }
    BareEscapeReads(r);
    if !(s.splitEscape && DOUBLED_ESCAPE <= s.buffer) {
      ChunkReadsAgain(r, s.buffer);
      if s.splitEscape {
        SplitPolicyHasNoBareEscapes(r, s.buffer);
      }
    }
  }

  lemma BareEscapeReads(r: Recognizers)
    ensures ReadChunk(r, [ESC]) == Some(Key) && !BareEscapes([ESC])
  {
  }

  lemma DiscardEmitsNothing(s: State)
    requires s.discard.Some?
    ensures StepDiscard(s).Next? ==> StepDiscard(s).emitted == []
  {
    hide ScanTail, Terminator;
  }

  lemma StepKeepsPolicy(r: Recognizers, s: State)
    ensures Step(r, s).state.splitEscape == s.splitEscape
  {
    hide ExtractOne, OrphanLen, IsUnfinishedOrphan, ScanTail, Terminator;
  }

  /** Of all chunks that draining gives out, the second reading loses exactly those that are two or more
      ESC bytes alone; when doubled escapes are split it loses none. */
  lemma {:induction false} DrainReadsAgain(r: Recognizers, s: State)
    ensures forall i :: 0 <= i < |Drain(r, s).1| ==>
              var chunk := Drain(r, s).1[i];
              && (ReadChunk(r, chunk).None? <==> BareEscapes(chunk))
              && (s.splitEscape ==> ReadChunk(r, chunk).Some?)
    decreases |s.buffer|, if s.discard.Some? then 1 else 0
  {
    hide Step, BareEscapes, ReadChunk;
    DrainUnfolds(r, s);
    if Step(r, s).Next? {
      StepKeepsPolicy(r, s);
      DrainReadsAgain(r, Step(r, s).state);
      var out, rest := Step(r, s).emitted, Drain(r, Step(r, s).state).1;
      if out != [] {
        StepReadsAgain(r, s);
      }
      forall i | 0 <= i < |out + rest|
        ensures (out + rest)[i] == if i < |out| then out[0] else rest[i - |out|]
      {
      }
    }
  }

  /* ---- an event that the legacy policy loses ---- */

  const MOUSE_EXAMPLE: bytes := [0x1b, 0x5b, 0x3c, 0x30, 0x3b, 0x31, 0x3b, 0x31, 0x4d]

  lemma MouseExampleParses()
    ensures IsSgrMouse(MOUSE_EXAMPLE)
  {
    hide Split, DecimalValue, IndexIn;
    var body: bytes := [0x30, 0x3b, 0x31, 0x3b, 0x31];
    assert MOUSE_EXAMPLE[3..8] == body;
    FieldAt(body, 1);
    assert body[..1] == [0x30] && body[2..] == [0x31, 0x3b, 0x31];
    FieldAt(body[2..], 1);
    assert body[2..][..1] == [0x31] && body[2..][2..] == [0x31];
    LastField([0x31]);
    OneDigit(0x30);
    OneDigit(0x31);
  }

  lemma {:induction false} LastField(s: bytes)
    requires SEMICOLON !in s
    ensures Split(s, SEMICOLON) == [s]
  {
  }

  /** Behind a doubled ESC the outer one is cut off alone; behind a tripled ESC the outer two go together. */
  lemma TripledEscapeLength()
    ensures EscapeLen([ESC, ESC] + MOUSE_EXAMPLE) == Some(2)
  {
    hide IsSgrMouse, IsUtf8, CsiLen, SequenceLen, EscapeLen;
    var b, d := [ESC, ESC] + MOUSE_EXAMPLE, [ESC] + MOUSE_EXAMPLE;
    assert b[1..] == d && d[1..] == MOUSE_EXAMPLE;
    assert DOUBLED_MOUSE <= d && !(DOUBLED_MOUSE <= b) by { assert b[2] == ESC; }
    DoubledEscapeCases(b);
    DoubledEscapeCases(d);
    MouseExampleEnds();
    assert d[1..1 + 9] == MOUSE_EXAMPLE;
    MouseExampleParses();
    AsciiIsUtf8(MOUSE_EXAMPLE);
  }

  lemma MouseExampleEnds()
    ensures CsiLen(MOUSE_EXAMPLE, MOUSE_FINALS) == Some(9)
  {
    var head := MOUSE_EXAMPLE[..8];
    assert MOUSE_EXAMPLE == head + [0x4d];
    CsiEnds(head, 0x4d, MOUSE_FINALS);
  }

  /** `ESC ESC ESC [ < 0 ; 1 ; 1 M`, pushed to a new framer that keeps doubled escapes: the first chunk given out
      is `ESC ESC`, which the second reading drops. */
  lemma LegacyLosesEvent(r: Recognizers)
    ensures var out := Push(r, Start(false), [ESC, ESC] + MOUSE_EXAMPLE).1;
            |out| >= 1 && out[0] == [ESC, ESC] && ReadChunk(r, out[0]).None?
  {
    var s := Start(false).Append([ESC, ESC] + MOUSE_EXAMPLE);
    LegacyStep(r, s);
    DrainUnfolds(r, s);
    BareEscapesAreNotRead(r, [ESC, ESC]);
    hide Step, Drain, ReadChunk;
  }

  lemma LegacyStep(r: Recognizers, s: State)
    requires Plain(s) && !s.splitEscape && s.buffer == [ESC, ESC] + MOUSE_EXAMPLE
    ensures Step(r, s).Next? && Step(r, s).emitted == [[ESC, ESC]]
  {
    TripledEscapeLength();
    AsciiIsUtf8([ESC, ESC]);
    hide EscapeLen, IsUtf8, ClassifyEscape, CountReply;
    assert s.buffer[..2] == [ESC, ESC] && s.buffer[1] == ESC;
  }
}
