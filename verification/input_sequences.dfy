/** Recognising one event at the front of the terminal byte stream. */
module InputSequences {
  import opened Options
  import opened Bytes
  import opened Utf8

  const ESC: byte := 0x1b
  const PASTE_START: bytes := [0x1b, 0x5b, 0x32, 0x30, 0x30, 0x7e]
  const PASTE_END: bytes := [0x1b, 0x5b, 0x32, 0x30, 0x31, 0x7e]
  const CSI: bytes := [0x1b, 0x5b]
  const MOUSE_INTRODUCER: bytes := [0x1b, 0x5b, 0x3c]
  const ORPHANED_MOUSE: bytes := [0x5b, 0x3c]
  const DOUBLED_ESCAPE: bytes := [0x1b, 0x1b]
  const DOUBLED_MOUSE: bytes := [0x1b, 0x1b, 0x5b, 0x3c]
  const STRING_TERMINATOR: bytes := [0x1b, 0x5c]
  const DARK_REPORT: bytes := [0x1b, 0x5b, 0x3f, 0x39, 0x39, 0x37, 0x3b, 0x31, 0x6e]
  const LIGHT_REPORT: bytes := [0x1b, 0x5b, 0x3f, 0x39, 0x39, 0x37, 0x3b, 0x32, 0x6e]
  const MOUSE_FINALS: set<byte> := {0x4d, 0x6d}
  const CSI_FINALS: set<byte> := set b: byte | 0x40 <= b <= 0x7e
  const MAX_ORPHANED_TAIL: nat := 32
  const SEMICOLON: byte := 0x3b

  /** The two recognisers that this model leaves open: every result holds for any choice of them.
      `key` is `parse_terminal_key_sequence(..).is_some()`; `color` is an OSC 10/11 or palette reply. */
  datatype Recognizers = Recognizers(key: bytes -> bool, color: bytes -> bool)

  /** What a mouse report says of the buttons: 0, 1 and 2 are left, middle and right. */
  datatype MouseKind =
    | Down(button: nat)
    | Up(button: nat)
    | Drag(button: nat)
    | Moved
    | ScrollUp
    | ScrollDown
    | ScrollLeft
    | ScrollRight

  datatype Event =
    | Paste(text: bytes)
    | HostColor
    | OuterFocusGained
    | OuterFocusLost
    | ColorScheme(dark: bool)
    | CellSize(width: nat, height: nat)
    | Mouse(kind: MouseKind, column: nat, row: nat, shift: bool, alt: bool, control: bool)
    | Key
    | Unsupported

  datatype Extracted = Extracted(event: Event, consumed: nat)

  datatype Family = Osc | StTerminated | HostReplyCsi | OrphanedMouseTail

  /* ---- terminators and complete sequences ---- */

  /** `control_string_terminator_for_family`: the length up to and including the terminator. */
  function Terminator(b: bytes, family: Family): (r: Option<nat>)
    ensures r.Some? ==> 1 <= r.value <= |b|
  {
    match family
    case Osc =>
      var st := FindSub(b, STRING_TERMINATOR);
      var bel := IndexIn(b, 0, {0x07});
      if st.Some? && bel.Some? then Some(if st.value + 2 <= bel.value + 1 then st.value + 2 else bel.value + 1)
      else if st.Some? then Some(st.value + 2)
      else if bel.Some? then Some(bel.value + 1)
      else None
    case StTerminated =>
      var st := FindSub(b, STRING_TERMINATOR);
      if st.Some? then Some(st.value + 2) else None
    case HostReplyCsi => None
    case OrphanedMouseTail =>
      var i := IndexIn(b, 0, MOUSE_FINALS);
      if i.Some? then Some(i.value + 1) else None
  }

  lemma TerminatorStable(b: bytes, family: Family, c: bytes)
    requires Terminator(b, family).Some?
    ensures Terminator(b + c, family) == Terminator(b, family)
  {
    match family
    case Osc =>
      var st, bel := FindSub(b, STRING_TERMINATOR), IndexIn(b, 0, {0x07});
      var st', bel' := FindSub(b + c, STRING_TERMINATOR), IndexIn(b + c, 0, {0x07});
      if st.Some? { FindSubStable(b, STRING_TERMINATOR, c); }
      if bel.Some? { IndexInStable(b, 0, {0x07}, c); }
      if st.None? && st'.Some? && st'.value + 2 <= |b| {
        assert (b + c)[st'.value..st'.value + 2] == b[st'.value..st'.value + 2];
        assert MatchAt(b, st'.value, STRING_TERMINATOR);
      }
    case StTerminated => FindSubStable(b, STRING_TERMINATOR, c);
    case HostReplyCsi =>
    case OrphanedMouseTail => IndexInStable(b, 0, MOUSE_FINALS, c);
  }

  /** Which control string the first two bytes open, if any. */
  function ControlFamily(b: bytes): Option<Family> {
    if |b| < 2 || b[0] != ESC then None
    else if b[1] == 0x5d then Some(Osc)
    else if b[1] in {0x50, 0x5f, 0x5e, 0x58} then Some(StTerminated)
    else None
  }

  /** `control_string(b)` is `Incomplete { family }` */
  predicate IsUnfinishedControl(b: bytes, family: Family) {
    ControlFamily(b) == Some(family) && Terminator(b, family).None?
  }

  /** `find_csi_final`: the length up to and including the first final byte after the introducer. */
  function CsiLen(b: bytes, finals: set<byte>): (r: Option<nat>)
    ensures r.Some? ==> 3 <= r.value <= |b|
  {
    var i := IndexIn(b, 2, finals);
    if i.Some? then Some(i.value + 1) else None
  }

  /** Button numbers and drag bits that `parse_mouse_cb` can represent. */
  predicate MouseButtonKnown(cb: byte) {
    var button := cb % 4 + (cb / 64) * 4;
    var dragging := (cb / 32) % 2 == 1;
    if dragging then button in {0, 1, 2, 3, 4, 5, 8, 9} else button <= 7
  }

  /** `parse_sgr_mouse(..).is_some()` */
  predicate IsSgrMouse(b: bytes) {
    && MOUSE_INTRODUCER <= b
    && |b| > 3
    && b[|b| - 1] in MOUSE_FINALS
    && var fields := Split(b[3..|b| - 1], SEMICOLON);
       && |fields| >= 3
       && ParseUnsigned(fields[0], 255).Some?
       && ParseUnsigned(fields[1], 65535).Some? && ParseUnsigned(fields[1], 65535).value >= 1
       && ParseUnsigned(fields[2], 65535).Some? && ParseUnsigned(fields[2], 65535).value >= 1
       && MouseButtonKnown(ParseUnsigned(fields[0], 255).value)
  }

  /** `parse_mouse_cb`, with the final byte that says whether a button was released. */
  function MouseKindOf(cb: byte, released: bool): MouseKind
    requires MouseButtonKnown(cb)
  {
    var button := cb % 4 + (cb / 64) * 4;
    if (cb / 32) % 2 == 1 then if button <= 2 then Drag(button) else Moved
    else if button <= 2 then if released then Up(button) else Down(button)
    else if button == 3 then Up(0)
    else if button == 4 then ScrollUp
    else if button == 5 then ScrollDown
    else if button == 6 then ScrollLeft
    else ScrollRight
  }

  /** `parse_sgr_mouse`: coordinates count from one in the report and from zero in the event. */
  function SgrMouse(b: bytes): (e: Event)
    requires IsSgrMouse(b)
    ensures e.Mouse?
  {
    var fields := Split(b[3..|b| - 1], SEMICOLON);
    var cb := ParseUnsigned(fields[0], 255).value;
    Mouse(MouseKindOf(cb, b[|b| - 1] == 0x6d),
          ParseUnsigned(fields[1], 65535).value - 1, ParseUnsigned(fields[2], 65535).value - 1,
          (cb / 4) % 2 == 1, (cb / 8) % 2 == 1, (cb / 16) % 2 == 1)
  }

  /** The part of `complete_escape_sequence_len` behind a single ESC: a control sequence, a control
      string, an SS3 sequence or an escaped character. */
  function SequenceLen(b: bytes): (r: Option<nat>)
    requires |b| > 1 && b[0] == ESC
    ensures r.Some? ==> 1 <= r.value <= |b|
  {
    if b[1] == 0x5b then
      CsiLen(b, if MOUSE_INTRODUCER <= b then MOUSE_FINALS else CSI_FINALS)
    else if ControlFamily(b).Some? then
      Terminator(b, ControlFamily(b).value)
    else if b[1] == 0x4f then
      if |b| >= 3 then Some(3) else None
    else
      match AnnouncedWidth(b[1])
      case None => None
      case Some(w) => if |b| < 1 + w || !IsUtf8(b[1..1 + w]) then None else Some(1 + w)
  }

  /** `complete_escape_sequence_len` */
  function EscapeLen(b: bytes): (r: Option<nat>)
    requires b != [] && b[0] == ESC
    ensures r.Some? ==> 1 <= r.value <= |b|
  {
    if |b| == 1 then None
    else
      var mouse := if DOUBLED_MOUSE <= b then CsiLen(b[1..], MOUSE_FINALS) else None;
      if mouse.Some? && !IsUtf8(b[1..1 + mouse.value]) then None
      else if mouse.Some? && IsSgrMouse(b[1..1 + mouse.value]) then Some(1)
      else if DOUBLED_ESCAPE <= b then
        var rest := EscapeLen(b[1..]);
        if rest.Some? then Some(rest.value + 1) else None
      else SequenceLen(b)
  }

  lemma CsiLenStable(b: bytes, finals: set<byte>, c: bytes)
    requires CsiLen(b, finals).Some?
    ensures CsiLen(b + c, finals) == CsiLen(b, finals)
  {
    IndexInStable(b, 2, finals, c);
  }

  lemma PrefixStable(p: bytes, b: bytes, c: bytes)
    requires |p| <= |b|
    ensures p <= b + c <==> p <= b
  {
    if p <= b + c {
      assert forall i :: 0 <= i < |p| ==> p[i] == (b + c)[i] == b[i];
    }
  }

  lemma SequenceLenStable(b: bytes, c: bytes)
    requires |b| > 1 && b[0] == ESC && SequenceLen(b).Some?
    ensures SequenceLen(b + c) == SequenceLen(b)
  {
    hide IndexIn, Terminator, IsUtf8;
    assert (b + c)[1] == b[1];
    if b[1] == 0x5b {
      PrefixStable(MOUSE_INTRODUCER, b, c);
      CsiLenStable(b, if MOUSE_INTRODUCER <= b then MOUSE_FINALS else CSI_FINALS, c);
    } else if ControlFamily(b).Some? {
      TerminatorStable(b, ControlFamily(b).value, c);
    } else if b[1] != 0x4f {
      var w := AnnouncedWidth(b[1]).value;
      assert (b + c)[1..1 + w] == b[1..1 + w];
    }
  }

  /** A mouse report behind a doubled ESC: the outer ESC is cut off alone. */
  lemma DoubledMouseStable(b: bytes, c: bytes)
    requires DOUBLED_MOUSE <= b && CsiLen(b[1..], MOUSE_FINALS).Some?
    ensures DOUBLED_MOUSE <= b + c
    ensures var n := CsiLen(b[1..], MOUSE_FINALS).value;
            CsiLen((b + c)[1..], MOUSE_FINALS) == Some(n) && (b + c)[1..1 + n] == b[1..1 + n]
  {
    hide IndexIn;
    assert (b + c)[1..] == b[1..] + c;
    CsiLenStable(b[1..], MOUSE_FINALS, c);
  }

  /** A complete escape sequence keeps its length when more bytes arrive. */
  lemma {:induction false} EscapeLenStable(b: bytes, c: bytes)
    requires b != [] && b[0] == ESC && EscapeLen(b).Some?
    ensures EscapeLen(b + c) == EscapeLen(b)
    decreases |b|
  {
    hide CsiLen, IsUtf8, IsSgrMouse, SequenceLen;
    if |b| > 1 && b[1] == ESC {
      assert (b + c)[1..] == b[1..] + c;
      assert DOUBLED_ESCAPE <= b && DOUBLED_ESCAPE <= b + c;
      if DOUBLED_MOUSE <= b {
        DoubledMouseIsSequence(b);
        DoubledMouseStable(b, c);
      } else {
        DoubledPrefixIsUndecided(b, c);
      }
      if EscapeLen(b).value != 1 {
        EscapeLenStable(b[1..], c);
      }
    } else if |b| > 1 {
      assert !(DOUBLED_ESCAPE <= b) && !(DOUBLED_ESCAPE <= b + c) by { assert (b + c)[1] == b[1]; }
      SequenceLenStable(b, c);
    }
  }

  /** Behind the outer ESC of a doubled mouse introducer stands a mouse sequence. */
  lemma DoubledMouseIsSequence(b: bytes)
    requires DOUBLED_MOUSE <= b
    ensures EscapeLen(b[1..]) == CsiLen(b[1..], MOUSE_FINALS)
  {
    hide CsiLen, IsUtf8, IsSgrMouse;
    assert b[1] == ESC && b[2] == 0x5b && b[3] == 0x3c;
    assert MOUSE_INTRODUCER <= b[1..] && !(DOUBLED_ESCAPE <= b[1..]);
  }

  lemma PartialDoubledMouseIsHeld()
    ensures EscapeLen(DOUBLED_ESCAPE).None? && EscapeLen([ESC, ESC, 0x5b]).None?
  {
    assert DOUBLED_ESCAPE[1..] == [ESC];
    var b := [ESC, ESC, 0x5b];
    assert b[1..] == CSI;
    assert CsiLen(CSI, CSI_FINALS).None?;
    assert SequenceLen(CSI).None?;
  }

  lemma {:induction false} DoubledPrefixIsUndecided(b: bytes, c: bytes)
    requires DOUBLED_ESCAPE <= b && !(DOUBLED_MOUSE <= b) && EscapeLen(b).Some?
    ensures !(DOUBLED_MOUSE <= b + c)
    ensures EscapeLen(b).value != 1
  {
    PartialDoubledMouseIsHeld();
    hide IsUtf8, IsSgrMouse, IndexIn;
    if |b| >= 4 {
      PrefixStable(DOUBLED_MOUSE, b, c);
    } else {
      assert |b| == 3 ==> b[2] == (b + c)[2];
      assert b == if |b| == 2 then DOUBLED_ESCAPE else [ESC, ESC, b[2]];
    }
  }

  /* ---- events ---- */

  /** `parse_host_cell_size_report`: `CSI 6 ; height ; width t`, both non-zero. */
  function CellSizeReport(b: bytes): (r: Option<Event>)
    ensures r.Some? ==> r.value.CellSize?
  {
    if !(CSI <= b) || |b| < 3 || b[|b| - 1] != 0x74 then None
    else
      var fields := Split(b[2..|b| - 1], SEMICOLON);
      if |fields| != 3 || fields[0] != [0x36] then None
      else
        var h, w := ParseUnsigned(fields[1], 0xffff_ffff), ParseUnsigned(fields[2], 0xffff_ffff);
        if h.None? || w.None? || h.value == 0 || w.value == 0 then None
        else Some(CellSize(w.value, h.value))
  }

  /** The event that a whole escape sequence stands for. */
  function ClassifyEscape(r: Recognizers, b: bytes): (e: Event)
    ensures !e.Paste?
  {
    if r.color(b) then HostColor
    else if b == [0x1b, 0x5b, 0x49] then OuterFocusGained
    else if b == [0x1b, 0x5b, 0x4f] then OuterFocusLost
    else if b == DARK_REPORT then ColorScheme(true)
    else if b == LIGHT_REPORT then ColorScheme(false)
    else if CellSizeReport(b).Some? then CellSizeReport(b).value
    else if IsSgrMouse(b) then SgrMouse(b)
    else if r.key(b) then Key
    else Unsupported
  }

  /** `extract_one_event` */
  function ExtractOne(r: Recognizers, b: bytes): (x: Option<Extracted>)
    ensures x.Some? ==> 1 <= x.value.consumed <= |b|
  {
    if b == [] then None
    else if PASTE_START <= b then
      match FindSub(b, PASTE_END)
      case None => None
      case Some(end) =>
        if end < 6 then None
        else if IsUtf8(b[6..end]) then Some(Extracted(Paste(b[6..end]), end + 6)) else None
    else if b[0] == ESC then
      match EscapeLen(b)
      case None => None
      case Some(n) =>
        if IsUtf8(b[..n]) then Some(Extracted(ClassifyEscape(r, b[..n]), n)) else None
    else
      match FirstCharLen(b)
      case None => None
      case Some(n) => if r.key(b[..n]) then Some(Extracted(Key, n)) else None
  }

  /** The start marker cannot overlap an end marker, so the guard `end < 6` never fires. */
  lemma PasteEndAfterStart(b: bytes)
    requires PASTE_START <= b && FindSub(b, PASTE_END).Some?
    ensures FindSub(b, PASTE_END).value >= 6
  {
    var k := FindSub(b, PASTE_END).value;
    assert b[k] == b[k..k + 6][0] == ESC && b[k + 4] == b[k..k + 6][4];
    assert forall i :: 0 <= i < 6 ==> b[i] == PASTE_START[i];
  }

  /** An unfinished start marker is never taken for another event. */
  lemma PartialPasteStartIsHeld(r: Recognizers, b: bytes)
    requires b < PASTE_START
    ensures ExtractOne(r, b).None?
  {
    if |b| >= 2 {
      assert b[0] == PASTE_START[0] && b[1] == PASTE_START[1];
      assert forall i :: 0 <= i < |b| ==> b[i] == PASTE_START[i];
      assert CSI <= b;
      assert CsiLen(b, CSI_FINALS).None?;
    }
  }

  /** An event found at the front of the buffer stays the same event, of the same
      length, whatever bytes arrive behind it. */
  lemma ExtractStable(r: Recognizers, b: bytes, c: bytes)
    requires ExtractOne(r, b).Some?
    ensures ExtractOne(r, b + c) == ExtractOne(r, b)
  {
    if PASTE_START <= b {
      PrefixStable(PASTE_START, b, c);
      FindSubStable(b, PASTE_END, c);
      var end := FindSub(b, PASTE_END).value;
      assert (b + c)[6..end] == b[6..end];
    } else {
      if PASTE_START <= b + c {
        if |b| >= 6 {
          PrefixStable(PASTE_START, b, c);
        } else {
          assert forall i :: 0 <= i < |b| ==> b[i] == (b + c)[i] == PASTE_START[i];
          assert b < PASTE_START;
          PartialPasteStartIsHeld(r, b);
        }
        assert false;
      }
      var n := ExtractOne(r, b).value.consumed;
      assert (b + c)[..n] == b[..n];
      if b[0] == ESC {
        EscapeLenStable(b, c);
      } else {
        FirstCharLenStable(b, c);
      }
    }
  }

  /* ---- what a timeout asks about the buffer ---- */

  predicate MouseTailBytes(b: bytes) {
    forall i :: 0 <= i < |b| ==> IsDigit(b[i]) || b[i] == SEMICOLON
  }

  /** `starts_with_incomplete_sgr_mouse_sequence` */
  predicate IsUnfinishedMouse(b: bytes) {
    MOUSE_INTRODUCER <= b && MouseTailBytes(b[3..])
  }

  /** `starts_with_incomplete_orphaned_sgr_mouse_tail` */
  predicate IsUnfinishedOrphan(b: bytes) {
    |b| <= MAX_ORPHANED_TAIL
    && ((|b| < 3 && b <= ORPHANED_MOUSE) || (ORPHANED_MOUSE <= b && MouseTailBytes(b[2..])))
  }

  /** `discard_complete_orphaned_sgr_mouse_tail`: how many bytes it drains, if it does. */
  function OrphanLen(b: bytes): (r: Option<nat>)
    ensures r.Some? ==> 1 <= r.value <= |b|
  {
    match Terminator(b, OrphanedMouseTail)
    case None => None
    case Some(n) =>
      if n > MAX_ORPHANED_TAIL || !IsUtf8([ESC] + b[..n]) || !IsSgrMouse([ESC] + b[..n]) then None else Some(n)
  }

  /** `starts_with_incomplete_default_color_response` */
  predicate IsUnfinishedColorReply(b: bytes) {
    IsUnfinishedControl(b, Osc)
    && |b| >= 5 && b[2] == 0x31 && b[3] in {0x30, 0x31} && b[4] == SEMICOLON
  }

  /** `starts_with_incomplete_host_color_scheme_report` */
  predicate IsUnfinishedSchemeReport(b: bytes) {
    [0x1b, 0x5b, 0x3f] <= b && (b <= DARK_REPORT || b <= LIGHT_REPORT) && |b| < |DARK_REPORT|
  }

  /** `starts_with_incomplete_host_cell_size_report` */
  predicate IsUnfinishedCellSizeReport(b: bytes) {
    && CSI <= b && |b| > 2 && b[|b| - 1] != 0x74
    && var fields := Split(b[2..], SEMICOLON);
       && fields[0] == [0x36]
       && |fields| <= 3
       && (|fields| > 1 ==> AllDigits(fields[1]))
       && (|fields| > 2 ==> AllDigits(fields[2]) && fields[1] != [])
  }

  /** `has_pending_bracketed_paste` */
  predicate IsUnfinishedPaste(b: bytes) {
    PASTE_START <= b && FindSub(b, PASTE_END).None?
  }

  /** `plausible_control_string_tail` for the two control-string families. */
  predicate IsPlausibleTail(family: Family, b: bytes) {
    match family
    case Osc =>
      forall i :: 0 <= i < |b| ==>
        IsDigit(b[i]) ||
        b[i] in {0x3b, 0x3a, 0x2f, 0x23, 0x3f, 0x2e, 0x5f, 0x2d, 0x2b, 0x72, 0x67, 0x62, 0x52, 0x47, 0x42, ESC}
    case StTerminated => b != [] && b[|b| - 1] == ESC
    case HostReplyCsi => false
    case OrphanedMouseTail => forall i :: 0 <= i < |b| ==> IsDigit(b[i]) || b[i] == SEMICOLON || b[i] in MOUSE_FINALS
  }

  /** Once the buffer has stopped looking like an unfinished orphan it never looks like one
      again, and an orphan found complete stays the same one. What later bytes can still do
      is complete an orphan that was given up: only that makes `OrphanLen` change. */
  lemma OrphanDecisionStable(b: bytes, c: bytes)
    requires !IsUnfinishedOrphan(b)
    ensures !IsUnfinishedOrphan(b + c)
    ensures OrphanLen(b).Some? ==> OrphanLen(b + c) == OrphanLen(b)
  {
    assert forall i :: 0 <= i < |b| ==> b[i] == (b + c)[i];
    assert |b| >= 2 ==> (b + c)[2..] == b[2..] + c;
    assert |b| >= 2 && MouseTailBytes((b + c)[2..]) ==> MouseTailBytes(b[2..]) by {
      assert forall i :: 0 <= i < |b| - 2 ==> b[2..][i] == (b + c)[2..][i];
    }
    if OrphanLen(b).Some? {
      TerminatorStable(b, OrphanedMouseTail, c);
      var n := OrphanLen(b).value;
      assert (b + c)[..n] == b[..n];
    }
  }
}
