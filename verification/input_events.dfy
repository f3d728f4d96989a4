/** Which event a sequence is read as: writers for the reports of a terminal, and the round trip through the
    extractor. */
module InputEvents {
  import opened Options
  import opened Bytes
  import opened Utf8
  import opened InputSequences
  import opened FramerScheduling
  import opened FramerDelivery
  import opened FramerUnits

  /* ---- decimal fields ---- */

  /** A number in decimal digits. */
  function Decimal(n: nat): bytes {
    if n < 10 then [0x30 + n] else Decimal(n / 10) + [0x30 + n % 10]
  }

  lemma {:induction false} DecimalReads(n: nat)
    ensures Decimal(n) != [] && AllDigits(Decimal(n)) && DecimalValue(Decimal(n)) == n
  {
    if n < 10 {
      OneDigit(0x30 + n);
    } else {
      DecimalReads(n / 10);
      var s := Decimal(n);
      assert s[..|s| - 1] == Decimal(n / 10);
    }
  }

  lemma {:induction false} DecimalParses(n: nat, max: nat)
    ensures ParseUnsigned(Decimal(n), max) == if n <= max then Some(n) else None
    ensures SEMICOLON !in Decimal(n)
  {
    DecimalReads(n);
    hide Decimal, DecimalValue;
  }

  lemma {:induction false} FieldInFront(a: bytes, b: bytes)
    requires SEMICOLON !in a
    ensures Split(a + [SEMICOLON] + b, SEMICOLON) == [a] + Split(b, SEMICOLON)
  {
    var s := a + [SEMICOLON] + b;
    FieldAt(s, |a|);
    assert s[..|a|] == a && s[|a| + 1..] == b;
  }

  lemma {:induction false} ThreeFields(a: bytes, b: bytes, c: bytes)
    requires SEMICOLON !in a && SEMICOLON !in b && SEMICOLON !in c
    ensures Split(a + [SEMICOLON] + b + [SEMICOLON] + c, SEMICOLON) == [a, b, c]
  {
    hide Split;
    assert a + [SEMICOLON] + b + [SEMICOLON] + c == a + [SEMICOLON] + (b + [SEMICOLON] + c);
    FieldInFront(a, b + [SEMICOLON] + c);
    FieldInFront(b, c);
    LastField(c);
  }

  function Fields(a: nat, b: nat, c: nat): bytes {
    Decimal(a) + [SEMICOLON] + Decimal(b) + [SEMICOLON] + Decimal(c)
  }

  lemma {:induction false} FieldsParse(a: nat, b: nat, c: nat)
    ensures MouseTailBytes(Fields(a, b, c)) && Fields(a, b, c) != []
    ensures Split(Fields(a, b, c), SEMICOLON) == [Decimal(a), Decimal(b), Decimal(c)]
  {
    hide Split, Decimal, DecimalValue;
    DecimalReads(a);
    DecimalReads(b);
    DecimalReads(c);
    ThreeFields(Decimal(a), Decimal(b), Decimal(c));
  }

  /* ---- units and what they are read as ---- */

  /** A unit behind ESC is read as what it stands for, whatever follows it. */
  lemma UnitReads(r: Recognizers, u: bytes, later: bytes)
    requires IsUnit(r, u) && u[0] == ESC && !(PASTE_START <= u)
    ensures ExtractOne(r, u + later) == Some(Extracted(ClassifyEscape(r, u), |u|))
  {
    ExtractStable(r, u, later);
    assert u[..|u|] == u;
    hide ClassifyEscape, EscapeLen, IsUtf8;
  }

  /** `CSI 6 ; height ; width t`, as the terminal writes it. */
  function CellSizeBytes(height: nat, width: nat): bytes { CSI + Fields(6, height, width) + [0x74] }

  lemma CellSizeUnit(r: Recognizers, height: nat, width: nat)
    ensures var u := CellSizeBytes(height, width);
            IsUnit(r, u) && u[0] == ESC && !(PASTE_START <= u) && u[|u| - 1] == 0x74
  {
    hide IsUnit, Decimal;
    var body := Fields(6, height, width);
    FieldsParse(6, height, width);
    FirstDigit(6, height, width);
    var u := CSI + body + [0x74];
    assert u[2] == body[0] == 0x36 != PASTE_START[2];
    ControlSequenceIsUnit(r, body, 0x74);
  }

  lemma FirstDigit(a: nat, b: nat, c: nat)
    requires a < 10
    ensures Fields(a, b, c)[0] == 0x30 + a
  {
    assert Fields(a, b, c)[0] == Decimal(a)[0];
  }

  /** A written report is taken for one exactly when both extents are positive and fit 32 bits. */
  lemma CellSizeParses(height: nat, width: nat)
    ensures CellSizeReport(CellSizeBytes(height, width))
            == if 1 <= height <= U32 && 1 <= width <= U32 then Some(CellSize(width, height)) else None
  {
    hide Split, ParseUnsigned, Decimal, Fields;
    var body := Fields(6, height, width);
    var u := CSI + body + [0x74];
    FieldsParse(6, height, width);
    assert u[2..|u| - 1] == body;
    SixIsSix();
    DecimalParses(height, U32);
    DecimalParses(width, U32);
  }

  const U32: nat := 0xffff_ffff

  lemma SixIsSix()
    ensures Decimal(6) == [0x36]
  {
  }

  /** Round trip of a cell size report: height comes first in the reply, and the event says which is which. */
  lemma CellSizeIsRead(r: Recognizers, height: nat, width: nat, later: bytes)
    requires 1 <= height <= U32 && 1 <= width <= U32
    requires !r.color(CellSizeBytes(height, width))
    ensures var u := CellSizeBytes(height, width);
            ExtractOne(r, u + later) == Some(Extracted(CellSize(width, height), |u|))
  {
    var u := CellSizeBytes(height, width);
    hide CellSizeBytes, CellSizeReport, IsUnit, ExtractOne;
    CellSizeUnit(r, height, width);
    CellSizeParses(height, width);
    UnitReads(r, u, later);
    assert DARK_REPORT[|DARK_REPORT| - 1] != 0x74 && LIGHT_REPORT[|LIGHT_REPORT| - 1] != 0x74;
  }

  /** The outer terminal gains and loses the focus. */
  lemma FocusIsRead(r: Recognizers, later: bytes)
    ensures !r.color(CSI + [0x49]) ==>
              ExtractOne(r, CSI + [0x49] + later) == Some(Extracted(OuterFocusGained, 3))
    ensures !r.color(CSI + [0x4f]) ==>
              ExtractOne(r, CSI + [0x4f] + later) == Some(Extracted(OuterFocusLost, 3))
  {
    hide IsUnit, ExtractOne, CellSizeReport, IsSgrMouse;
    ShortSequence(r, 0x49, later);
    ShortSequence(r, 0x4f, later);
    assert CSI + [0x49] == [0x1b, 0x5b, 0x49] && CSI + [0x4f] == [0x1b, 0x5b, 0x4f];
  }

  lemma ShortSequence(r: Recognizers, final: byte, later: bytes)
    requires 0x40 <= final <= 0x7e
    ensures ExtractOne(r, CSI + [final] + later) == Some(Extracted(ClassifyEscape(r, CSI + [final]), 3))
  {
    hide IsUnit, ExtractOne, ClassifyEscape;
    var u := CSI + [final];
    assert CSI + [] + [final] == u;
    ControlSequenceIsUnit(r, [], final);
    UnitReads(r, u, later);
  }

  /** The two reports of a changed colour scheme. */
  lemma SchemeIsRead(r: Recognizers, dark: bool, later: bytes)
    requires !r.color(SchemeBytes(dark))
    ensures ExtractOne(r, SchemeBytes(dark) + later) == Some(Extracted(ColorScheme(dark), 9))
  {
    hide IsUnit, ExtractOne, CellSizeReport, IsSgrMouse;
    var u := SchemeBytes(dark);
    var parameters := u[2..8];
    assert u == CSI + parameters + [0x6e];
    ControlSequenceIsUnit(r, parameters, 0x6e);
    assert u[2] == 0x3f != PASTE_START[2];
    UnitReads(r, u, later);
    assert DARK_REPORT[7] != LIGHT_REPORT[7];
  }

  /** `CSI ? 997 ; 1 n` or `CSI ? 997 ; 2 n` */
  function SchemeBytes(dark: bool): bytes {
    CSI + [0x3f, 0x39, 0x39, 0x37, 0x3b, if dark then 0x31 else 0x32] + [0x6e]
  }

  /** Any sequence that the colour parser takes is a colour reply. */
  lemma ColorIsRead(r: Recognizers, u: bytes, later: bytes)
    requires IsUnit(r, u) && u[0] == ESC && !(PASTE_START <= u) && r.color(u)
    ensures ExtractOne(r, u + later) == Some(Extracted(HostColor, |u|))
  {
    UnitReads(r, u, later);
  }

  /** Any sequence that is no report is a key if the key parser takes it, and unsupported otherwise. */
  lemma KeyIsRead(r: Recognizers, u: bytes, later: bytes)
    requires IsUnit(r, u) && u[0] == ESC && !(PASTE_START <= u) && !r.color(u)
    requires u != CSI + [0x49] && u != CSI + [0x4f] && u != SchemeBytes(true) && u != SchemeBytes(false)
    requires CellSizeReport(u).None? && !IsSgrMouse(u)
    ensures ExtractOne(r, u + later) == Some(Extracted(if r.key(u) then Key else Unsupported, |u|))
  {
    hide IsUnit, ExtractOne, CellSizeReport, IsSgrMouse;
    UnitReads(r, u, later);
    assert SchemeBytes(true) == DARK_REPORT && SchemeBytes(false) == LIGHT_REPORT;
  }

  /** A bracketed paste is read as its text. */
  lemma {:induction false} PasteIsRead(r: Recognizers, text: bytes, later: bytes)
    requires FindSub(text, PASTE_END).None? && IsUtf8(text)
    ensures ExtractOne(r, PASTE_START + text + PASTE_END + later) == Some(Extracted(Paste(text), |text| + 12))
  {
    var u := PASTE_START + text + PASTE_END;
    PasteEndIsFirst(text);
    assert u[6..6 + |text|] == text;
    assert ExtractOne(r, u) == Some(Extracted(Paste(text), |text| + 12)) by {
      hide FindSubFrom, IsUtf8;
      assert PASTE_START <= u;
    }
    ExtractStable(r, u, later);
    hide ExtractOne;
  }

  /* ---- mouse reports ---- */

  predicate ValidKind(kind: MouseKind) {
    (kind.Down? || kind.Up? || kind.Drag?) ==> kind.button <= 2
  }

  /** The button number of a report. */
  function ButtonCode(kind: MouseKind): byte
    requires ValidKind(kind)
  {
    match kind
    case Down(button) => button
    case Up(button) => button
    case Drag(button) => 32 + button
    case Moved => 35
    case ScrollUp => 64
    case ScrollDown => 65
    case ScrollLeft => 66
    case ScrollRight => 67
  }

  /** The modifiers that a report adds to its button number. */
  function ModifierCode(shift: bool, alt: bool, control: bool): byte {
    (if shift then 4 else 0) + (if alt then 8 else 0) + (if control then 16 else 0)
  }

  /** An SGR mouse report, as the terminal writes it. */
  function MouseBytes(e: Event): bytes
    requires e.Mouse? && ValidKind(e.kind)
  {
    MOUSE_INTRODUCER
    + Fields(ButtonCode(e.kind) + ModifierCode(e.shift, e.alt, e.control), e.column + 1, e.row + 1)
    + [if e.kind.Up? then 0x6d else 0x4d]
  }

  /** A number below 8 from its three bits. */
  function Bits(a: bool, b: bool, c: bool): (k: nat)
    ensures k < 8
  {
    (if a then 1 else 0) + (if b then 2 else 0) + (if c then 4 else 0)
  }

  lemma BitsRead(a: bool, b: bool, c: bool)
    ensures var k := Bits(a, b, c); (k % 2 == 1 <==> a) && ((k / 2) % 2 == 1 <==> b) && ((k / 4) % 2 == 1 <==> c)
  {
    match (a, b, c)
    case (true, true, true) =>
    case (true, true, false) =>
    case (true, false, true) =>
    case (true, false, false) =>
    case (false, true, true) =>
    case (false, true, false) =>
    case (false, false, true) =>
    case (false, false, false) =>
  }

  lemma HighPart(group: nat, k: nat)
    requires k < 8
    ensures var q := 8 * group + k;
            q / 8 == group && q % 2 == k % 2 && (q / 2) % 2 == (k / 2) % 2 && (q / 4) % 2 == (k / 4) % 2
  {
    var q := 8 * group + k;
    assert q / 2 == 4 * group + k / 2;
    assert q / 4 == 2 * group + k / 4;
  }

  lemma LowPart(q: nat, low: nat)
    requires low < 4
    ensures var cb := 4 * q + low;
            cb % 4 == low && cb / 4 == q && cb / 8 == q / 2 && cb / 16 == q / 4 && cb / 32 == q / 8 && cb / 64 == q / 16
  {
  }

  lemma CodeBits(group: nat, low: nat, shift: bool, alt: bool, control: bool)
    requires group <= 2 && low <= 3
    ensures var cb := 32 * group + low + ModifierCode(shift, alt, control);
            && cb <= 95 + 28 && cb % 4 == low && cb / 32 == group && cb / 64 == group / 2
            && ((cb / 4) % 2 == 1 <==> shift) && ((cb / 8) % 2 == 1 <==> alt) && ((cb / 16) % 2 == 1 <==> control)
  {
    var k := Bits(shift, alt, control);
    BitsRead(shift, alt, control);
    assert ModifierCode(shift, alt, control) == 4 * k;
    hide Bits, ModifierCode;
    HighPart(group, k);
    LowPart(8 * group + k, low);
  }

  lemma KindReads(cb: byte, kind: MouseKind)
    requires ValidKind(kind) && cb % 4 == ButtonCode(kind) % 32 && cb / 32 == ButtonCode(kind) / 32
    requires cb / 64 == ButtonCode(kind) / 64
    ensures MouseButtonKnown(cb) && MouseKindOf(cb, kind.Up?) == kind
  {
    match kind
    case Down(button) =>
    case Up(button) =>
    case Drag(button) =>
    case Moved =>
    case ScrollUp =>
    case ScrollDown =>
    case ScrollLeft =>
    case ScrollRight =>
  }

  lemma CodeDecodes(kind: MouseKind, shift: bool, alt: bool, control: bool)
    requires ValidKind(kind)
    ensures var cb := ButtonCode(kind) + ModifierCode(shift, alt, control);
            && cb <= 255 && MouseButtonKnown(cb) && MouseKindOf(cb, kind.Up?) == kind
            && ((cb / 4) % 2 == 1 <==> shift) && ((cb / 8) % 2 == 1 <==> alt) && ((cb / 16) % 2 == 1 <==> control)
  {
    hide ModifierCode, MouseButtonKnown, MouseKindOf, Bits;
    var code := ButtonCode(kind);
    CodeSplits(kind);
    hide ButtonCode;
    CodeBits(code / 32, code % 32, shift, alt, control);
    KindReads(code + ModifierCode(shift, alt, control), kind);
  }

  lemma CodeSplits(kind: MouseKind)
    requires ValidKind(kind)
    ensures var code := ButtonCode(kind);
            code == 32 * (code / 32) + code % 32 && code / 32 <= 2 && code % 32 <= 3 && code / 64 == code / 32 / 2
  {
  }

  /** Button numbers without their modifiers. */
  const BUTTON_CODES: set<nat> := {0, 1, 2, 3, 32, 33, 34, 35, 64, 65, 66, 67, 96, 97, 160, 161}

  /** Which numbers a report may carry: those that are in the table once the modifier bits are taken away. */
  lemma KnownCodes(cb: byte)
    ensures MouseButtonKnown(cb) <==> cb - 4 * ((cb / 4) % 8) in BUTTON_CODES
  {
    var group, k, low := cb / 32, (cb / 4) % 8, cb % 4;
    assert cb == 32 * group + 4 * k + low;
    hide BUTTON_CODES;
    KnownGroups(cb, group, low);
  }

  lemma KnownGroups(cb: byte, group: nat, low: nat)
    requires group == cb / 32 && low == cb % 4
    ensures MouseButtonKnown(cb) <==> 32 * group + low in BUTTON_CODES
  {
    assert cb / 64 == group / 2 && group <= 7;
    match group
    case 0 =>
    case 1 =>
    case 2 =>
    case 3 =>
    case 4 =>
    case 5 =>
    case 6 =>
    case _ =>
  }

  /** Three numbers are a mouse report exactly if the first is in the table and the others are positions. */
  lemma ReportsAreChecked(cb: nat, column: nat, row: nat, final: byte)
    requires final in MOUSE_FINALS
    ensures IsSgrMouse(MOUSE_INTRODUCER + Fields(cb, column, row) + [final]) <==>
              && cb <= 255 && cb - 4 * ((cb / 4) % 8) in BUTTON_CODES
              && 1 <= column <= 65535 && 1 <= row <= 65535
  {
    hide Split, ParseUnsigned, Decimal, Fields, MouseButtonKnown, BUTTON_CODES;
    var body := Fields(cb, column, row);
    var u := MOUSE_INTRODUCER + body + [final];
    FieldsParse(cb, column, row);
    assert u[3..|u| - 1] == body;
    DecimalParses(cb, 255);
    DecimalParses(column, 65535);
    DecimalParses(row, 65535);
    if cb <= 255 {
      KnownCodes(cb);
    }
  }

  lemma MouseParses(e: Event)
    requires e.Mouse? && ValidKind(e.kind) && e.column < 65535 && e.row < 65535
    ensures IsSgrMouse(MouseBytes(e)) && SgrMouse(MouseBytes(e)) == e
  {
    hide Split, ParseUnsigned, Decimal, Fields, MouseKindOf, MouseButtonKnown, ButtonCode, ModifierCode;
    var cb := ButtonCode(e.kind) + ModifierCode(e.shift, e.alt, e.control);
    CodeDecodes(e.kind, e.shift, e.alt, e.control);
    var body := Fields(cb, e.column + 1, e.row + 1);
    var u := MouseBytes(e);
    FieldsParse(cb, e.column + 1, e.row + 1);
    assert u[3..|u| - 1] == body;
    DecimalParses(cb, 255);
    DecimalParses(e.column + 1, 65535);
    DecimalParses(e.row + 1, 65535);
  }

  /** Round trip of a mouse report: kind, position and modifiers are read back as they were written. */
  lemma MouseIsRead(r: Recognizers, e: Event, later: bytes)
    requires e.Mouse? && ValidKind(e.kind) && e.column < 65535 && e.row < 65535
    requires !r.color(MouseBytes(e))
    ensures ExtractOne(r, MouseBytes(e) + later) == Some(Extracted(e, |MouseBytes(e)|))
  {
    MouseParses(e);
    var u := MouseBytes(e);
    MouseUnit(r, e);
    hide MouseBytes, IsSgrMouse, IsUnit, ExtractOne;
    UnitReads(r, u, later);
    NoOtherReport(u);
  }

  lemma MouseUnit(r: Recognizers, e: Event)
    requires e.Mouse? && ValidKind(e.kind)
    ensures var u := MouseBytes(e);
            && IsUnit(r, u) && u[0] == ESC && !(PASTE_START <= u)
            && |u| > 3 && u[2] == 0x3c && u[|u| - 1] in MOUSE_FINALS
  {
    hide IsUnit, Fields, Split, ButtonCode, ModifierCode;
    var cb := ButtonCode(e.kind) + ModifierCode(e.shift, e.alt, e.control);
    FieldsParse(cb, e.column + 1, e.row + 1);
    MouseReportIsUnit(r, Fields(cb, e.column + 1, e.row + 1), if e.kind.Up? then 0x6d else 0x4d);
    assert MouseBytes(e)[2] == 0x3c != PASTE_START[2];
  }

  lemma NoOtherReport(u: bytes)
    requires |u| > 3 && u[2] == 0x3c && u[|u| - 1] in MOUSE_FINALS
    ensures u != [0x1b, 0x5b, 0x49] && u != [0x1b, 0x5b, 0x4f] && u != DARK_REPORT && u != LIGHT_REPORT
    ensures CellSizeReport(u).None?
  {
    assert DARK_REPORT[2] == LIGHT_REPORT[2] == 0x3f;
  }
}
