/** What is delivered whatever the arrival times: pasted text as one chunk, typed text character by character. */
module FramerDelivery {
  import opened Options
  import opened Bytes
  import opened Utf8
  import opened InputSequences
  import opened InputFramer
  import opened FramerScheduling
  import opened FramerAccounting

  /** Pushes and idle timeouts in any order, and nothing else. */
  predicate Timing(inputs: seq<Input>) {
    forall i :: 0 <= i < |inputs| ==> inputs[i].Bytes? || inputs[i].Idle?
  }

  /** A timeout finds nothing to do, wherever in `w` it strikes. */
  ghost predicate Quiet(r: Recognizers, s: State, w: bytes) {
    forall n {:trigger w[..n]} :: 0 <= n <= |w| ==> Flush(r, Push(r, s, w[..n]).0) == (Push(r, s, w[..n]).0, [])
  }

  lemma {:induction false} QuietRun(r: Recognizers, s: State, done: bytes, inputs: seq<Input>, w: bytes)
    requires Plain(s) && Timing(inputs) && w == done + Pushed(inputs) && Quiet(r, s, w)
    ensures var (t, out) := Push(r, s, done);
            var (u, rest) := Run(r, t, inputs);
            Push(r, s, w) == (u, out + rest)
    decreases |inputs|
  {
    hide Drain, Flush, Quiet;
    var (t, out) := Push(r, s, done);
    if inputs == [] {
      assert w == done && out + [] == out;
    } else {
      var (t', more) := React(r, t, inputs[0]);
      var data := Data(inputs[0]);
      assert w == (done + data) + Pushed(inputs[1..]);
      QuietRun(r, s, done + data, inputs[1..], w);
      var rest := Run(r, t', inputs[1..]).1;
      assert out + (more + rest) == (out + more) + rest;
      if inputs[0].Idle? {
        assert done + data == done == w[..|done|];
        QuietAt(r, s, w, |done|);
        assert out + more == out;
      } else {
        SplitInvariance(r, s, done, data);
      }
    }
  }

  lemma QuietAt(r: Recognizers, s: State, w: bytes, n: nat)
    requires Quiet(r, s, w) && n <= |w|
    ensures Flush(r, Push(r, s, w[..n]).0) == (Push(r, s, w[..n]).0, [])
  {
  }

  /** If no timeout finds anything to do, timeouts are invisible: the run is one push. */
  lemma {:induction false} QuietRunIsPush(r: Recognizers, s: State, inputs: seq<Input>)
    requires Plain(s) && AtRest(r, s) && Timing(inputs) && Quiet(r, s, Pushed(inputs))
    ensures Run(r, s, inputs) == Push(r, s, Pushed(inputs))
  {
    hide Quiet, Run, Step;
    assert s.buffer + [] == s.buffer;
    assert s.Append([]) == s;
    RestIsFixed(r, s);
    assert Push(r, s, []) == (s, []);
    assert Pushed(inputs) == [] + Pushed(inputs);
    QuietRun(r, s, [], inputs, Pushed(inputs));
    assert [] + Run(r, s, inputs).1 == Run(r, s, inputs).1;
  }

  lemma QuietWhenEmpty(r: Recognizers, s: State)
    requires Plain(s) && s.buffer == []
    ensures AtRest(r, s) && Flush(r, s) == (s, [])
  {
    assert AtRest(r, s) by { assert ExtractOne(r, []).None?; }
    RestIsFixed(r, s);
    var none: seq<bytes> := [];
    assert none + none == none;
  }

  lemma QuietWhenWaiting(r: Recognizers, s: State)
    requires Plain(s) && AtRest(r, s) && WaitsForMore(s.buffer)
    ensures Flush(r, s) == (s, [])
  {
    RestIsFixed(r, s);
    WaitingIsNoneOfTheOthers(r, s);
    hide Drain, Timeout;
    var none: seq<bytes> := [];
    assert none + none == none;
  }

  /* ---- bracketed paste ---- */

  lemma NoEarlierPasteEnd(text: bytes, i: nat)
    requires FindSub(text, PASTE_END).None? && i < 6 + |text|
    ensures (PASTE_START + text + PASTE_END)[i..i + 6] != PASTE_END
  {
    hide FindSubFrom;
    var w := PASTE_START + text + PASTE_END;
    var found := w[i..i + 6];
    if i == 0 {
      assert found[4] == w[4] == PASTE_START[4];
    } else if i < 6 {
      assert found[0] == w[i] == PASTE_START[i] != ESC;
    } else if i <= |text| {
      assert !MatchAt(text, i - 6, PASTE_END);
      assert text[i - 6..i] == found;
    } else {
      var d := 6 + |text| - i;
      assert found[d] == w[i + d] == PASTE_END[0];
      assert PASTE_END[d] != ESC;
    }
  }

  /** The end marker of a paste is the one behind its text: neither the start marker nor a
      text without an end marker can contribute an earlier one. */
  lemma PasteEndIsFirst(text: bytes)
    requires FindSub(text, PASTE_END).None?
    ensures FindSub(PASTE_START + text + PASTE_END, PASTE_END) == Some(6 + |text|)
  {
    hide FindSubFrom;
    var w := PASTE_START + text + PASTE_END;
    assert w[6 + |text|..6 + |text| + 6] == PASTE_END;
    assert MatchAt(w, 6 + |text|, PASTE_END);
    var k := FindSub(w, PASTE_END).value;
    assert k <= 6 + |text|;
    if k != 6 + |text| {
      NoEarlierPasteEnd(text, k);
    }
  }

  lemma PasteUnfinished(text: bytes, n: nat)
    requires FindSub(text, PASTE_END).None? && n < |text| + 6
    ensures IsUnfinishedPaste(PASTE_START + (text + PASTE_END)[..n])
  {
    hide FindSubFrom;
    var w := PASTE_START + text + PASTE_END;
    var part := PASTE_START + (text + PASTE_END)[..n];
    assert part == w[..6 + n];
    var k := FindSub(part, PASTE_END);
    assert k.Some? ==> part[k.value..k.value + 6] == w[k.value..k.value + 6];
    if k.Some? {
      NoEarlierPasteEnd(text, k.value);
    }
  }

  lemma UnfinishedPasteRests(r: Recognizers, s: State)
    requires Plain(s) && IsUnfinishedPaste(s.buffer)
    ensures AtRest(r, s)
  {
    assert s.buffer[1] == PASTE_START[1];
    assert !(DOUBLED_ESCAPE <= s.buffer);
  }

  lemma {:induction false} FinishedPasteDrains(r: Recognizers, s: State, text: bytes)
    requires Plain(s) && s.buffer == PASTE_START + text + PASTE_END
    requires FindSub(text, PASTE_END).None? && IsUtf8(text)
    ensures Drain(r, s) == (s.(buffer := [], heldEscape := false), [s.buffer])
  {
    var b := s.buffer;
    var t := s.(buffer := [], heldEscape := false);
    PasteEndIsFirst(text);
    assert b[6..6 + |text|] == text;
    assert ExtractOne(r, b) == Some(Extracted(Paste(text), |b|)) by {
      hide FindSubFrom, IsUtf8;
      assert PASTE_START <= b;
    }
    assert Step(r, s) == Next(t, [b]) by {
      hide ExtractOne;
      assert b[1] == PASTE_START[1];
      assert !(DOUBLED_ESCAPE <= b);
      assert b[..|b|] == b && b[|b|..] == [];
    }
    QuietWhenEmpty(r, t);
    hide Step;
    RestIsFixed(r, t);
    assert [b] + [] == [b];
  }

  /** Paste atomicity: from any state with nothing buffered and nothing being skipped, the start marker
      is held; from there every schedule of pushes and timeouts over text and end marker emits exactly
      one chunk, the whole paste, and leaves nothing behind. */
  lemma {:induction false} PasteAtomicity(r: Recognizers, s: State, text: bytes, inputs: seq<Input>)
    requires s.discard.None? && s.buffer == []
    requires FindSub(text, PASTE_END).None? && IsUtf8(text)
    requires Timing(inputs) && Pushed(inputs) == text + PASTE_END
    ensures var (begun, early) := Push(r, s, PASTE_START);
            && early == []
            && Run(r, begun, inputs)
               == (s.(escapeFlushed := false, heldEscape := false), [PASTE_START + text + PASTE_END])
  {
    hide Drain, Step, Flush, AtRest, FindSub, IsUtf8, Run, IsUnfinishedPaste;
    var begun := s.(escapeFlushed := false, buffer := PASTE_START);
    PasteOpens(r, s);
    PasteUnfinishedAtStart();
    UnfinishedPasteRests(r, begun);
    var w := text + PASTE_END;
    forall n | 0 <= n <= |w|
      ensures Flush(r, Push(r, begun, w[..n]).0) == (Push(r, begun, w[..n]).0, [])
    {
      PasteQuiet(r, begun, text, n);
    }
    QuietRunIsPush(r, begun, inputs);
    assert begun.buffer + w == PASTE_START + text + PASTE_END;
    FinishedPasteDrains(r, begun.Append(w), text);
  }

  lemma PasteUnfinishedAtStart()
    ensures IsUnfinishedPaste(PASTE_START)
  {
    var none: bytes := [];
    assert FindSub(none, PASTE_END).None?;
    PasteUnfinished([], 0);
    assert PASTE_START + ([] + PASTE_END)[..0] == PASTE_START;
  }

  lemma PasteIsNoOrphan()
    ensures !IsUnfinishedOrphan(PASTE_START) && OrphanLen(PASTE_START).None?
  {
    assert PASTE_START[0] != ORPHANED_MOUSE[0];
    assert IndexIn(PASTE_START, 0, MOUSE_FINALS).None?;
  }

  lemma PasteOpens(r: Recognizers, s: State)
    requires s.discard.None? && s.buffer == []
    ensures Push(r, s, PASTE_START) == (s.(escapeFlushed := false, buffer := PASTE_START), [])
  {
    var begun := s.(escapeFlushed := false, buffer := PASTE_START);
    assert [] + PASTE_START == PASTE_START;
    PasteUnfinishedAtStart();
    UnfinishedPasteRests(r, begun);
    RestIsFixed(r, begun);
    PasteIsNoOrphan();
    assert Step(r, s.Append(PASTE_START)) == Step(r, begun) by {
      hide ExtractOne, OrphanLen, IsUnfinishedOrphan;
    }
    hide Step, FindSub;
    DrainByStep(r, s.Append(PASTE_START), begun);
  }

  lemma {:induction false} PasteQuiet(r: Recognizers, begun: State, text: bytes, n: nat)
    requires Plain(begun) && begun.buffer == PASTE_START
    requires FindSub(text, PASTE_END).None? && IsUtf8(text) && n <= |text| + 6
    ensures var t := Push(r, begun, (text + PASTE_END)[..n]).0; Flush(r, t) == (t, [])
  {
    hide IsUtf8, FindSub, Flush, Step, AtRest;
    var q := (text + PASTE_END)[..n];
    var t := begun.Append(q);
    if n < |text| + 6 {
      PasteUnfinished(text, n);
      UnfinishedPasteRests(r, t);
      RestIsFixed(r, t);
      QuietWhenWaiting(r, t);
    } else {
      assert q == text + PASTE_END;
      assert t.buffer == PASTE_START + text + PASTE_END;
      FinishedPasteDrains(r, t, text);
      QuietWhenEmpty(r, Push(r, begun, q).0);
    }
  }

  /* ---- typed text ---- */

  /** Characters that are not ESC and that the key parser takes one at a time. */
  ghost predicate Typed(r: Recognizers, chars: seq<bytes>) {
    forall i :: 0 <= i < |chars| ==> IsChar(chars[i]) && chars[i][0] != ESC && r.key(chars[i])
  }

  lemma TypedTail(r: Recognizers, chars: seq<bytes>)
    requires Typed(r, chars) && chars != []
    ensures Typed(r, chars[1..]) && IsChar(chars[0]) && chars[0][0] != ESC && r.key(chars[0])
  {
  }

  lemma TypedCharExtracts(r: Recognizers, b: bytes, n: nat)
    requires 1 <= n <= |b| && IsChar(b[..n]) && b[0] != ESC && r.key(b[..n])
    ensures ExtractOne(r, b) == Some(Extracted(Key, n))
  {
    ReadHeadPrefix(b, n);
    FirstCharLenIsHead(b);
    assert b[..n][0] == b[0];
    hide ReadHead, FirstCharLen;
    assert !(PASTE_START <= b);
  }

  lemma PartOfCharIsHeld(r: Recognizers, s: State, c: bytes, n: nat)
    requires Plain(s) && IsChar(c) && c[0] != ESC && n < |c| && s.buffer == c[..n]
    ensures AtRest(r, s)
    ensures s.buffer == [] || IsTruncatedChar(s.buffer)
  {
    if n > 0 {
      assert s.buffer[0] == c[0];
      ReadHeadPrefix(c, n);
      FirstCharLenIsHead(s.buffer);
      hide ReadHead, FirstCharLen;
      assert !(PASTE_START <= s.buffer);
    }
  }

  lemma TypedStep(r: Recognizers, s: State, c: bytes, later: bytes)
    requires Plain(s) && s.buffer == c + later && IsChar(c) && c[0] != ESC && r.key(c)
    ensures Step(r, s) == Next(s.(buffer := later, heldEscape := false), [c])
  {
    var b := s.buffer;
    assert b[..|c|] == c && b[|c|..] == later && b[0] == c[0];
    TypedCharExtracts(r, b, |c|);
    hide ExtractOne;
    assert !(DOUBLED_ESCAPE <= b);
  }

  /** A prefix of typed text: the whole characters are emitted, the rest of it is held. */
  lemma {:induction false} TypedPrefix(r: Recognizers, s: State, chars: seq<bytes>, n: nat) returns (k: nat)
    requires Plain(s) && Typed(r, chars) && n <= |Flatten(chars)| && s.buffer == Flatten(chars)[..n]
    ensures k <= |chars|
    ensures var (t, out) := Drain(r, s);
            && out == chars[..k]
            && Plain(t) && AtRest(r, t)
            && (t.buffer == [] || IsTruncatedChar(t.buffer))
            && (n == |Flatten(chars)| ==> k == |chars| && t.buffer == [])
    decreases |chars|
  {
    hide Step, IsChar, IsTruncatedChar;
    if chars == [] {
      assert s.buffer == [];
      QuietWhenEmpty(r, s);
      RestIsFixed(r, s);
      k := 0;
    } else {
      var c, later := chars[0], Flatten(chars[1..]);
      TypedTail(r, chars);
      if n < |c| {
        assert s.buffer == c[..n];
        PartOfCharIsHeld(r, s, c, n);
        RestIsFixed(r, s);
        k := 0;
      } else {
        var t := s.(buffer := later[..n - |c|], heldEscape := false);
        assert s.buffer == c + t.buffer;
        TypedStep(r, s, c, t.buffer);
        var j := TypedPrefix(r, t, chars[1..], n - |c|);
        k := j + 1;
        assert chars[..k] == [c] + chars[1..][..j];
      }
    }
  }

  /** Typed text under timeouts: with nothing buffered, every schedule of pushes and timeouts over
      characters the key parser accepts emits exactly those characters, one per chunk. */
  lemma {:induction false} TextDelivery(r: Recognizers, s: State, chars: seq<bytes>, inputs: seq<Input>)
    requires Plain(s) && s.buffer == [] && Typed(r, chars)
    requires Timing(inputs) && Pushed(inputs) == Flatten(chars)
    ensures Run(r, s, inputs).1 == chars && Run(r, s, inputs).0.buffer == []
  {
    var w := Flatten(chars);
    forall n | 0 <= n <= |w|
      ensures Flush(r, Push(r, s, w[..n]).0) == (Push(r, s, w[..n]).0, [])
    {
      TextQuiet(r, s, chars, n);
    }
    QuietWhenEmpty(r, s);
    QuietRunIsPush(r, s, inputs);
    assert s.buffer + w == w == w[..|w|];
    var k := TypedPrefix(r, s.Append(w), chars, |w|);
    assert chars[..|chars|] == chars;
  }

  lemma {:induction false} TextQuiet(r: Recognizers, s: State, chars: seq<bytes>, n: nat)
    requires Plain(s) && s.buffer == [] && Typed(r, chars) && n <= |Flatten(chars)|
    ensures var t := Push(r, s, Flatten(chars)[..n]).0; Flush(r, t) == (t, [])
  {
    hide Flush, Step, AtRest, IsTruncatedChar;
    var q := Flatten(chars)[..n];
    assert s.buffer + q == q;
    var k := TypedPrefix(r, s.Append(q), chars, n);
    var t := Push(r, s, q).0;
    if t.buffer == [] {
      QuietWhenEmpty(r, t);
    } else {
      QuietWhenWaiting(r, t);
    }
  }
}
