/** The framer as the object its callers drive: fields updated in place by loops. Each method is
    proved equal to the transition function of the same name. */
module RawInput {
  import opened Options
  import opened Bytes
  import opened Utf8
  import opened InputSequences
  import Model = InputFramer

  class RawInputByteFramer {
    const parsers: Recognizers
    const splitCoalescedEscape: bool
    var buffer: bytes
    var discardUntil: Option<Family>
    var discardedTailBytes: nat
    var loneEscapeRecentlyFlushed: bool
    var hostColorRepliesAwaited: nat
    var hostCellSizeRepliesAwaited: nat
    var heldPendingHostReplyEsc: bool
    var hostColorSchemeChangeTracking: bool

    /** The abstract state. */
    ghost function View(): Model.State
      reads this
    {
      Model.State(buffer, discardUntil, discardedTailBytes, loneEscapeRecentlyFlushed, hostColorRepliesAwaited,
                  hostCellSizeRepliesAwaited, heldPendingHostReplyEsc, hostColorSchemeChangeTracking,
                  splitCoalescedEscape)
    }

    constructor ForHostInput(parsers: Recognizers, preserveLegacyDoubledEscape: bool)
      ensures View() == Model.Start(!preserveLegacyDoubledEscape) && this.parsers == parsers
    {
      this.parsers := parsers;
      splitCoalescedEscape := !preserveLegacyDoubledEscape;
      buffer, discardUntil, discardedTailBytes := [], None, 0;
      loneEscapeRecentlyFlushed, heldPendingHostReplyEsc, hostColorSchemeChangeTracking := false, false, false;
      hostColorRepliesAwaited, hostCellSizeRepliesAwaited := 0, 0;
    }

    method Push(data: bytes) returns (chunks: seq<bytes>)
      modifies this
      ensures (View(), chunks) == Model.Push(parsers, old(View()), data)
    {
      buffer := buffer + data;
      chunks := DrainAvailableChunks();
    }

    method HostColorQuerySent()
      modifies this`hostColorRepliesAwaited, this`heldPendingHostReplyEsc
      ensures View() == old(View()).ColorQuerySent()
    {
      hostColorRepliesAwaited := Model.COLOR_QUERY_REPLIES;
      heldPendingHostReplyEsc := false;
    }

    method HostCellSizeQuerySent()
      modifies this
      ensures View() == old(View()).CellSizeQuerySent()
    {
      hostCellSizeRepliesAwaited := Model.CELL_SIZE_QUERY_REPLIES;
      heldPendingHostReplyEsc := false;
    }

    method EnableHostColorSchemeChangeTracking()
      modifies this
      ensures View() == old(View()).TrackScheme()
    {
      hostColorSchemeChangeTracking := true;
    }

    /** Skip the rest of a host reply: parameter bytes, then one final byte. */
    method DiscardHostReplyCsiTail() returns (done: bool)
      modifies this`buffer, this`discardedTailBytes
      ensures Model.TailResult(buffer, discardedTailBytes, done)
              == Model.HostReplyTail(old(buffer), old(discardedTailBytes))
    {
      var remaining := Model.Remaining(discardedTailBytes);
      var inspected := if |buffer| < remaining then |buffer| else remaining;
      var index := 0;
      while index < inspected
        invariant index <= inspected && buffer == old(buffer)
        invariant Model.ScanTail(buffer, remaining, Model.CSI_PARAMETERS, CSI_FINALS)
                  == Model.ScanTail(buffer[index..], remaining - index, Model.CSI_PARAMETERS, CSI_FINALS)
      {
        assert buffer[index..][1..] == buffer[index + 1..];
        if 0x20 <= buffer[index] <= 0x3f {
          index := index + 1;
        } else if 0x40 <= buffer[index] <= 0x7e {
          buffer := buffer[index + 1..];
          return true;
        } else {
          buffer := buffer[index..];
          return true;
        }
      }
      buffer := buffer[inspected..];
      discardedTailBytes := discardedTailBytes + inspected;
      done := discardedTailBytes >= Model.MAX_DISCARDED;
    }

    /** Skip the rest of a mouse report; past the limit, drop all that is buffered. */
    method DiscardOrphanedSgrMouseTail() returns (done: bool)
      modifies this`buffer, this`discardedTailBytes
      ensures Model.TailResult(buffer, discardedTailBytes, done)
              == Model.MouseTail(old(buffer), old(discardedTailBytes))
    {
      var remaining := Model.Remaining(discardedTailBytes);
      var inspected := if |buffer| < remaining then |buffer| else remaining;
      var index := 0;
      while index < inspected
        invariant index <= inspected && buffer == old(buffer)
        invariant Model.ScanTail(buffer, remaining, Model.MOUSE_PARAMETERS, MOUSE_FINALS)
                  == Model.ScanTail(buffer[index..], remaining - index, Model.MOUSE_PARAMETERS, MOUSE_FINALS)
      {
        assert buffer[index..][1..] == buffer[index + 1..];
        if IsDigit(buffer[index]) || buffer[index] == SEMICOLON {
          index := index + 1;
        } else if buffer[index] in MOUSE_FINALS {
          buffer := buffer[index + 1..];
          return true;
        } else {
          buffer := buffer[index..];
          return true;
        }
      }
      discardedTailBytes := discardedTailBytes + inspected;
      done := |buffer| > inspected;
      buffer := [];
    }

    /** One discard mode's turn in the drain loop: true when the mode has ended. */
    method DiscardStep(family: Family) returns (done: bool)
      requires discardUntil == Some(family)
      modifies this`buffer, this`discardedTailBytes, this`discardUntil
      ensures Model.StepDiscard(old(View())) == if done then Model.Next(View(), []) else Model.Stop(View())
    {
      match family {
        case HostReplyCsi => done := DiscardHostReplyCsiTail();
        case OrphanedMouseTail => done := DiscardOrphanedSgrMouseTail();
        case _ =>
          var terminator := Terminator(buffer, family);
          done := terminator.Some?;
          if done {
            buffer := buffer[terminator.value..];
          }
      }
      if done {
        discardUntil, discardedTailBytes := None, 0;
      }
    }

    /** Update the reply counters for an extracted event. */
    method NoteEvent(event: Event)
      modifies this`hostColorRepliesAwaited, this`hostCellSizeRepliesAwaited, this`heldPendingHostReplyEsc
      ensures View() == Model.CountReply(old(View()), event)
    {
      match event {
        case HostColor =>
          hostColorRepliesAwaited := Model.SaturatingPred(hostColorRepliesAwaited);
        case CellSize(_, _) =>
          hostCellSizeRepliesAwaited := Model.SaturatingPred(hostCellSizeRepliesAwaited);
        case ColorScheme(_) =>
          if hostColorSchemeChangeTracking {
            HostColorQuerySent();
          }
        case _ =>
      }
      heldPendingHostReplyEsc := false;
    }

    method DrainAvailableChunks() returns (chunks: seq<bytes>)
      modifies this
      ensures (View(), chunks) == Model.Drain(parsers, old(View()))
    {
      hide Model.Drain, Model.Step;
      chunks := [];
      assert chunks + Model.Drain(parsers, View()).1 == Model.Drain(parsers, View()).1;
      while true
        invariant Model.Drain(parsers, old(View()))
                  == (Model.Drain(parsers, View()).0, chunks + Model.Drain(parsers, View()).1)
        decreases |buffer|, if discardUntil.Some? then 1 else 0
      {
        Model.DrainUnfolds(parsers, View());
        var emitted, more := DrainOnce();
        ghost var rest := Model.Drain(parsers, View()).1;
        assert chunks + (emitted + rest) == (chunks + emitted) + rest;
        chunks := chunks + emitted;
        if !more {
          break;
        }
      }
    }

    /** One pass of the drain loop: what it emitted and whether to go round again. */
    method DrainOnce() returns (emitted: seq<bytes>, more: bool)
      modifies this
      ensures Model.Step(parsers, old(View())) == if more then Model.Next(View(), emitted) else Model.Stop(View())
      ensures !more ==> emitted == []
    {
      hide ExtractOne, OrphanLen, IsUnfinishedOrphan, Model.StepDiscard, Model.CountReply;
      emitted, more := [], true;
      if loneEscapeRecentlyFlushed {
        if IsUnfinishedOrphan(buffer) {
          return [], false;
        }
        loneEscapeRecentlyFlushed := false;
        var orphan := OrphanLen(buffer);
        if orphan.Some? {
          buffer := buffer[orphan.value..];
          return;
        }
      }
      if discardUntil.Some? {
        more := DiscardStep(discardUntil.value);
        return;
      }
      if splitCoalescedEscape && DOUBLED_ESCAPE <= buffer {
        emitted := [[ESC]];
        buffer := buffer[1..];
        return;
      }
      var extracted := ExtractOne(parsers, buffer);
      if extracted.None? {
        return [], false;
      }
      NoteEvent(extracted.value.event);
      emitted := [buffer[..extracted.value.consumed]];
      buffer := buffer[extracted.value.consumed..];
    }

    /** Timeout in a discard mode: keep skipping only while what came in is plausible and short. */
    method TimeoutDiscarding(family: Family)
      requires discardUntil == Some(family)
      modifies this
      ensures View() == Model.TimeoutDiscard(old(View()))
    {
      hide IsPlausibleTail;
      if family == HostReplyCsi {
        return;
      }
      if family == OrphanedMouseTail {
        buffer, discardUntil, discardedTailBytes := [], None, 0;
        return;
      }
      var keepSplitSt := buffer != [] && buffer[|buffer| - 1] == ESC;
      var keepDiscarding := IsPlausibleTail(family, buffer);
      discardedTailBytes := discardedTailBytes + |buffer|;
      buffer := [];
      if keepDiscarding && discardedTailBytes <= Model.MAX_DISCARDED {
        if keepSplitSt {
          buffer := [ESC];
        }
      } else {
        discardUntil, discardedTailBytes := None, 0;
      }
    }

    /** The buffer is skipped from now on, in the given mode. */
    method SkipInto(family: Family)
      modifies this
      ensures View() == old(View()).(buffer := [], discard := Some(family), discarded := 0)
    {
      discardUntil, discardedTailBytes, buffer := Some(family), 0, [];
    }

    method FlushTimeout() returns (chunks: seq<bytes>)
      modifies this
      ensures (View(), chunks) == Model.Flush(parsers, old(View()))
    {
      hide Model.Drain, Model.Timeout;
      chunks := DrainAvailableChunks();
      var more := ExpireTimeout();
      chunks := chunks + more;
    }

    /** What a timeout does to the drained buffer. */
    method ExpireTimeout() returns (chunks: seq<bytes>)
      modifies this
      ensures (View(), chunks) == Model.Timeout(parsers, old(View()))
    {
      hide OrphanLen, IsUnfinishedMouse, IsUnfinishedPaste, IsUnfinishedColorReply,
           Model.TimeoutPending, Model.TimeoutDiscard;
      chunks := [];
      if discardUntil.Some? {
        TimeoutDiscarding(discardUntil.value);
      } else if buffer == [] {
      } else if loneEscapeRecentlyFlushed && ORPHANED_MOUSE <= buffer {
        var orphan := OrphanLen(buffer);
        if orphan.Some? {
          buffer := buffer[orphan.value..];
        } else {
          DropIntoMouseTail();
        }
        loneEscapeRecentlyFlushed := false;
      } else if IsUnfinishedMouse(buffer) {
        DropIntoMouseTail();
      } else if IsUnfinishedPaste(buffer) || IsUnfinishedColorReply(buffer) {
      } else if hostCellSizeRepliesAwaited > 0 && buffer == CSI && !heldPendingHostReplyEsc {
        heldPendingHostReplyEsc := true;
      } else {
        if hostCellSizeRepliesAwaited > 0 && buffer == CSI {
          hostCellSizeRepliesAwaited, heldPendingHostReplyEsc := 0, false;
        }
        chunks := ExpirePending();
      }
    }

    method DropIntoMouseTail()
      modifies this
      ensures View() == Model.DropIntoMouseTail(old(View()))
    {
      discardedTailBytes := |buffer|;
      discardUntil := if discardedTailBytes <= Model.MAX_DISCARDED then Some(OrphanedMouseTail) else None;
      buffer := [];
    }

    method ExpirePending() returns (chunks: seq<bytes>)
      modifies this
      ensures (View(), chunks) == Model.TimeoutPending(parsers, old(View()))
    {
      hide Terminator, IsUtf8, IsTruncatedChar, IsUnfinishedCellSizeReport, IsUnfinishedSchemeReport;
      chunks := [];
      var control := ControlFamily(buffer);
      if hostCellSizeRepliesAwaited > 0 && IsUnfinishedCellSizeReport(buffer) {
        hostCellSizeRepliesAwaited, heldPendingHostReplyEsc := 0, false;
        SkipInto(HostReplyCsi);
      } else if IsUnfinishedSchemeReport(buffer) {
        SkipInto(HostReplyCsi);
      } else if control.Some? && Terminator(buffer, control.value).None? {
        SkipInto(control.value);
      } else if buffer == [ESC] {
        if (hostColorRepliesAwaited > 0 || hostCellSizeRepliesAwaited > 0) && !heldPendingHostReplyEsc {
          heldPendingHostReplyEsc := true;
          return;
        }
        hostColorRepliesAwaited, hostCellSizeRepliesAwaited, heldPendingHostReplyEsc := 0, 0, false;
        loneEscapeRecentlyFlushed := true;
        chunks := [buffer];
        buffer := [];
      } else if IsUtf8(buffer) && parsers.key(buffer) {
        chunks := [buffer];
        buffer := [];
      } else if IsTruncatedChar(buffer) || (buffer != [] && buffer[0] == ESC && IsTruncatedChar(buffer[1..])) {
      } else {
        loneEscapeRecentlyFlushed, buffer := false, [];
      }
    }
  }
}
