/** The byte framer: a buffer, a discard mode, reply counters and hold flags, driven by
    pushed bytes and idle timeouts. This module gives its transition functions. */
module InputFramer {
  import opened Options
  import opened Bytes
  import opened Utf8
  import opened InputSequences

  const MAX_DISCARDED: nat := 128
  const COLOR_QUERY_REPLIES: nat := 258
  const CELL_SIZE_QUERY_REPLIES: nat := 1

  datatype State = State(
    buffer: bytes,
    discard: Option<Family>,
    discarded: nat,
    escapeFlushed: bool,
    colorAwaited: nat,
    cellSizeAwaited: nat,
    heldEscape: bool,
    schemeTracking: bool,
    splitEscape: bool)
  {
    function Append(data: bytes): State { this.(buffer := buffer + data) }

    function Clear(): State { this.(buffer := []) }

    function EndDiscard(): State { this.(discard := None, discarded := 0) }

    function ColorQuerySent(): State { this.(colorAwaited := COLOR_QUERY_REPLIES, heldEscape := false) }

    function CellSizeQuerySent(): State { this.(cellSizeAwaited := CELL_SIZE_QUERY_REPLIES, heldEscape := false) }

    function TrackScheme(): State { this.(schemeTracking := true) }

    /** What every reachable state satisfies. */
    predicate Valid() {
      && (escapeFlushed ==> discard.None?)
      && (discard.Some? ==> discarded <= MAX_DISCARDED)
      && (discard == Some(HostReplyCsi) ==> discarded < MAX_DISCARDED)
    }
  }

  /** The state of a new framer under either policy for doubled escapes. */
  function Start(splitEscape: bool): State {
    State([], None, 0, false, 0, 0, false, false, splitEscape)
  }

  function SaturatingPred(n: nat): nat { if n == 0 then 0 else n - 1 }

  /* ---- discarding ---- */

  const CSI_PARAMETERS: set<byte> := set b: byte | 0x20 <= b <= 0x3f
  const MOUSE_PARAMETERS: set<byte> := set b: byte | 0x30 <= b <= 0x39 || b == SEMICOLON

  /** What a scan over a discarded tail leaves: the bytes not consumed, how many more it may
      inspect, and whether it met a byte that ends the tail. */
  datatype Scan = Scan(rest: bytes, left: nat, ended: bool)

  /** Skip parameter bytes, at most `budget` of them. A final byte ends the tail and goes with it;
      any other byte ends it and stays. */
  function ScanTail(b: bytes, budget: nat, parameters: set<byte>, finals: set<byte>): (t: Scan)
    ensures |t.rest| <= |b| && t.left <= budget
    ensures !t.ended ==> t.rest == [] || t.left == 0
  {
    if b == [] || budget == 0 then Scan(b, budget, false)
    else if b[0] in parameters then ScanTail(b[1..], budget - 1, parameters, finals)
    else Scan(if b[0] in finals then b[1..] else b, budget, true)
  }

  datatype TailResult = TailResult(rest: bytes, discarded: nat, done: bool)

  function Remaining(discarded: nat): nat {
    if discarded <= MAX_DISCARDED then MAX_DISCARDED - discarded else 0
  }

  /** `discard_host_reply_csi_tail` */
  function HostReplyTail(b: bytes, discarded: nat): (t: TailResult)
    ensures |t.rest| <= |b|
  {
    var scan := ScanTail(b, Remaining(discarded), CSI_PARAMETERS, CSI_FINALS);
    if scan.ended then TailResult(scan.rest, discarded, true)
    else TailResult(scan.rest, discarded + (Remaining(discarded) - scan.left), scan.left == 0)
  }

  /** `discard_orphaned_sgr_mouse_tail` */
  function MouseTail(b: bytes, discarded: nat): (t: TailResult)
    ensures |t.rest| <= |b|
  {
    var scan := ScanTail(b, Remaining(discarded), MOUSE_PARAMETERS, MOUSE_FINALS);
    if scan.ended then TailResult(scan.rest, discarded, true)
    else TailResult([], discarded + (Remaining(discarded) - scan.left), scan.rest != [])
  }

  /* ---- draining ---- */

  /** One pass through the drain loop: it stops, or goes round again having emitted some chunks. */
  datatype Outcome = Stop(state: State) | Next(state: State, emitted: seq<bytes>)

  /** How an extracted event moves the reply counters. */
  function CountReply(s: State, e: Event): State {
    var t :=
      match e
      case HostColor => s.(colorAwaited := SaturatingPred(s.colorAwaited))
      case CellSize(_, _) => s.(cellSizeAwaited := SaturatingPred(s.cellSizeAwaited))
      case ColorScheme(_) => if s.schemeTracking then s.ColorQuerySent() else s
      case _ => s;
    t.(heldEscape := false)
  }

  function StepDiscard(s: State): Outcome
    requires s.discard.Some?
  {
    match s.discard.value
    case HostReplyCsi =>
      var t := HostReplyTail(s.buffer, s.discarded);
      if t.done then Next(s.(buffer := t.rest).EndDiscard(), [])
      else Stop(s.(buffer := t.rest, discarded := t.discarded))
    case OrphanedMouseTail =>
      var t := MouseTail(s.buffer, s.discarded);
      if t.done then Next(s.(buffer := t.rest).EndDiscard(), [])
      else Stop(s.(buffer := t.rest, discarded := t.discarded))
    case _ =>
      match Terminator(s.buffer, s.discard.value)
      case None => Stop(s)
      case Some(n) => Next(s.(buffer := s.buffer[n..]).EndDiscard(), [])
  }

  function StepExtract(r: Recognizers, s: State): Outcome {
    if s.splitEscape && DOUBLED_ESCAPE <= s.buffer then
      Next(s.(buffer := s.buffer[1..]), [[ESC]])
    else
      match ExtractOne(r, s.buffer)
      case None => Stop(s)
      case Some(x) =>
        Next(CountReply(s, x.event).(buffer := s.buffer[x.consumed..]), [s.buffer[..x.consumed]])
  }

  function StepPlain(r: Recognizers, s: State): Outcome {
    if s.discard.Some? then StepDiscard(s) else StepExtract(r, s)
  }

  function Step(r: Recognizers, s: State): Outcome {
    if !s.escapeFlushed then StepPlain(r, s)
    else if IsUnfinishedOrphan(s.buffer) then Stop(s)
    else
      match OrphanLen(s.buffer)
      case Some(n) => Next(s.(buffer := s.buffer[n..], escapeFlushed := false), [])
      case None => StepPlain(r, s.(escapeFlushed := false))
  }

  /** Each further pass shortens the buffer or leaves a discard mode. */
  lemma StepDecreases(r: Recognizers, s: State)
    requires Step(r, s).Next?
    ensures var t := Step(r, s).state;
            |t.buffer| < |s.buffer| || (|t.buffer| == |s.buffer| && s.discard.Some? && t.discard.None?)
  {
    hide ExtractOne, OrphanLen, IsUnfinishedOrphan, Terminator, ScanTail;
  }

  /** `drain_available_chunks`: final state and emitted chunks. The loop ends because each
      further pass shortens the buffer or leaves a discard mode. */
  function Drain(r: Recognizers, s: State): (State, seq<bytes>)
    decreases |s.buffer|, if s.discard.Some? then 1 else 0
  {
    match Step(r, s)
    case Stop(t) => (t, [])
    case Next(t, out) =>
      StepDecreases(r, s);
      var (u, rest) := Drain(r, t);
      (u, out + rest)
  }

  /** One pass of the loop, then the rest of it. */
  lemma {:induction false} DrainUnfolds(r: Recognizers, s: State)
    ensures var o := Step(r, s);
            Drain(r, s) == if o.Next? then (Drain(r, o.state).0, o.emitted + Drain(r, o.state).1) else (o.state, [])
    ensures Step(r, s).Next? ==> var t := Step(r, s).state;
              |t.buffer| < |s.buffer| || (|t.buffer| == |s.buffer| && s.discard.Some? && t.discard.None?)
  {
    hide Step;
    if Step(r, s).Next? {
      StepDecreases(r, s);
    }
  }

  /** `push` */
  function Push(r: Recognizers, s: State, data: bytes): (State, seq<bytes>) {
    Drain(r, s.Append(data))
  }

  /* ---- timeouts ---- */

  /** Timeout in a discard mode. */
  function TimeoutDiscard(s: State): State
    requires s.discard.Some?
  {
    match s.discard.value
    case HostReplyCsi => s
    case OrphanedMouseTail => s.Clear().EndDiscard()
    case family =>
      var total := s.discarded + |s.buffer|;
      if IsPlausibleTail(family, s.buffer) && total <= MAX_DISCARDED then
        s.(discarded := total, buffer := if s.buffer != [] && s.buffer[|s.buffer| - 1] == ESC then [ESC] else [])
      else s.Clear().EndDiscard()
  }

  /** Drop the buffer and skip the mouse bytes that may still follow it. */
  function DropIntoMouseTail(s: State): State {
    s.(buffer := [],
       discarded := |s.buffer|,
       discard := if |s.buffer| <= MAX_DISCARDED then Some(OrphanedMouseTail) else None)
  }

  /** The buffer is exactly `ESC [` while a cell size reply is due. */
  predicate IsCellSizePrefix(s: State) { s.cellSizeAwaited > 0 && s.buffer == CSI }

  /** Timeout for a buffer that may be the start of a control string, a reply or a key. */
  function TimeoutPending(r: Recognizers, s: State): (State, seq<bytes>) {
    if s.cellSizeAwaited > 0 && IsUnfinishedCellSizeReport(s.buffer) then
      (s.(cellSizeAwaited := 0, heldEscape := false, discard := Some(HostReplyCsi), discarded := 0, buffer := []), [])
    else if IsUnfinishedSchemeReport(s.buffer) then
      (s.(discard := Some(HostReplyCsi), discarded := 0, buffer := []), [])
    else if ControlFamily(s.buffer).Some? && Terminator(s.buffer, ControlFamily(s.buffer).value).None? then
      (s.(discard := ControlFamily(s.buffer), discarded := 0, buffer := []), [])
    else if s.buffer == [ESC] then
      if (s.colorAwaited > 0 || s.cellSizeAwaited > 0) && !s.heldEscape then (s.(heldEscape := true), [])
      else
        (s.(colorAwaited := 0, cellSizeAwaited := 0, heldEscape := false, escapeFlushed := true, buffer := []), [[ESC]])
    else if IsUtf8(s.buffer) && r.key(s.buffer) then (s.Clear(), [s.buffer])
    else if IsTruncatedChar(s.buffer) then (s, [])
    else if s.buffer != [] && s.buffer[0] == ESC && IsTruncatedChar(s.buffer[1..]) then (s, [])
    else (s.(escapeFlushed := false, buffer := []), [])
  }

  /** The part of `flush_timeout` after its drain. */
  function Timeout(r: Recognizers, s: State): (State, seq<bytes>) {
    if s.discard.Some? then (TimeoutDiscard(s), [])
    else if s.buffer == [] then (s, [])
    else if s.escapeFlushed && ORPHANED_MOUSE <= s.buffer then
      match OrphanLen(s.buffer)
      case Some(n) => (s.(buffer := s.buffer[n..], escapeFlushed := false), [])
      case None => (DropIntoMouseTail(s).(escapeFlushed := false), [])
    else if IsUnfinishedMouse(s.buffer) then (DropIntoMouseTail(s), [])
    else if IsUnfinishedPaste(s.buffer) then (s, [])
    else if IsUnfinishedColorReply(s.buffer) then (s, [])
    else if IsCellSizePrefix(s) then
      if !s.heldEscape then (s.(heldEscape := true), [])
      else TimeoutPending(r, s.(cellSizeAwaited := 0, heldEscape := false))
    else TimeoutPending(r, s)
  }

  /** `flush_timeout` */
  function Flush(r: Recognizers, s: State): (State, seq<bytes>) {
    var (t, chunks) := Drain(r, s);
    var (u, more) := Timeout(r, t);
    (u, chunks + more)
  }

  /* ---- runs ---- */

  datatype Input =
    | Bytes(data: bytes)
    | Idle
    | ColorQuery
    | CellSizeQuery
    | EnableTracking

  function React(r: Recognizers, s: State, i: Input): (State, seq<bytes>) {
    match i
    case Bytes(data) => Push(r, s, data)
    case Idle => Flush(r, s)
    case ColorQuery => (s.ColorQuerySent(), [])
    case CellSizeQuery => (s.CellSizeQuerySent(), [])
    case EnableTracking => (s.TrackScheme(), [])
  }

  /** A whole run: final state and every chunk emitted on the way. */
  function Run(r: Recognizers, s: State, inputs: seq<Input>): (State, seq<bytes>)
    decreases |inputs|
  {
    if inputs == [] then (s, [])
    else
      var (t, out) := React(r, s, inputs[0]);
      var (u, rest) := Run(r, t, inputs[1..]);
      (u, out + rest)
  }

  /** All bytes a run pushes, in order. */
  function Pushed(inputs: seq<Input>): bytes {
    if inputs == [] then []
    else (match inputs[0] case Bytes(data) => data case _ => []) + Pushed(inputs[1..])
  }
}
