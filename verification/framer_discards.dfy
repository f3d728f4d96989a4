/** How much of the input the host-reply mode can swallow. */
module FramerDiscards {
  import opened Options
  import opened Bytes
  import opened InputSequences
  import opened InputFramer
  import opened FramerScheduling
  import opened FramerAccounting
  import opened FramerDelivery

  /** How many bytes of `w` belong to the tail of a reply of which `budget` parameter bytes may still come: the
      parameter bytes, and one final byte behind them. None when the tail may go on behind `w`. */
  function Swallowed(w: bytes, budget: nat): (k: Option<nat>)
    ensures k.Some? ==> k.value <= |w| && k.value <= budget + 1
    ensures k.Some? ==> forall i :: 0 <= i < k.value ==>
              w[i] in CSI_PARAMETERS || (i == k.value - 1 && w[i] in CSI_FINALS)
    ensures k.None? ==> |w| < budget && forall i :: 0 <= i < |w| ==> w[i] in CSI_PARAMETERS
    decreases |w|
  {
    if budget == 0 then Some(0)
    else if w == [] then None
    else if w[0] in CSI_PARAMETERS then
      var k := Swallowed(w[1..], budget - 1);
      if k.None? then None else Some(k.value + 1)
    else Some(if w[0] in CSI_FINALS then 1 else 0)
  }

  lemma {:induction false} ScanSwallows(w: bytes, budget: nat)
    ensures var t := ScanTail(w, budget, CSI_PARAMETERS, CSI_FINALS); var k := Swallowed(w, budget);
            if k.None? then t == Scan([], budget - |w|, false)
            else t.rest == w[k.value..] && (t.ended || t.left == 0)
    decreases |w|
  {
    if budget > 0 && w != [] && w[0] in CSI_PARAMETERS {
      ScanSwallows(w[1..], budget - 1);
    }
  }

  lemma {:induction false} SwallowedSplit(a: bytes, b: bytes, budget: nat)
    ensures Swallowed(a, budget).Some? ==> Swallowed(a + b, budget) == Swallowed(a, budget)
    ensures Swallowed(a, budget).None? ==>
              var k := Swallowed(b, budget - |a|);
              Swallowed(a + b, budget) == if k.None? then None else Some(|a| + k.value)
    decreases |a|
  {
    if a == [] {
      assert a + b == b;
    } else if budget > 0 && a[0] in CSI_PARAMETERS {
      assert (a + b)[1..] == a[1..] + b;
      SwallowedSplit(a[1..], b, budget - 1);
    }
  }

  /** The framer skips the tail of a host reply and holds nothing. */
  predicate SkipsReply(s: State) { s.Valid() && s.discard == Some(HostReplyCsi) && s.buffer == [] }

  /** A timeout that enters the mode has swallowed what was held, and starts counting from zero. */
  lemma SkippingStarts(r: Recognizers, s: State)
    requires s.Valid() && AtRest(r, s) && s.discard.None? && Timeout(r, s).0.discard == Some(HostReplyCsi)
    ensures SkipsReply(Timeout(r, s).0) && Timeout(r, s).0.discarded == 0 && Timeout(r, s).1 == []
  {
    hide Step, AtRest, Timeout;
    TimeoutKeepsValid(r, s);
    TimeoutStarts(r, s);
  }

  lemma TimeoutStarts(r: Recognizers, s: State)
    requires s.discard.None?
    ensures var (t, out) := Timeout(r, s);
            t.discard == Some(HostReplyCsi) ==> t.buffer == [] && t.discarded == 0 && out == []
  {
    hide OrphanLen, TimeoutPending, IsUnfinishedMouse, IsUnfinishedPaste, IsUnfinishedColorReply, IsCellSizePrefix;
    PendingStarts(r, s);
    PendingStarts(r, s.(cellSizeAwaited := 0, heldEscape := false));
  }

  lemma PendingStarts(r: Recognizers, s: State)
    requires s.discard.None?
    ensures var (t, out) := TimeoutPending(r, s);
            t.discard == Some(HostReplyCsi) ==> t.buffer == [] && t.discarded == 0 && out == []
  {
    hide Terminator, ControlFamily, IsUnfinishedCellSizeReport, IsUnfinishedSchemeReport;
    ControlIsNoReply(s.buffer);
  }

  lemma ControlIsNoReply(b: bytes)
    ensures ControlFamily(b) != Some(HostReplyCsi)
  {
  }

  lemma {:induction false} SkippingStep(r: Recognizers, s: State, data: bytes)
    requires SkipsReply(s)
    ensures var k := Swallowed(data, Remaining(s.discarded));
            Step(r, s.Append(data))
            == if k.None? then Stop(s.(discarded := s.discarded + |data|))
               else Next(s.EndDiscard().Append(data[k.value..]), [])
  {
    hide ScanTail, Swallowed, Step;
    var full := s.Append(data);
    assert full.buffer == data;
    ScanSwallows(data, Remaining(s.discarded));
    StepWhileSkipping(r, full);
    var k := Swallowed(data, Remaining(s.discarded));
    if k.Some? {
      assert [] + data[k.value..] == data[k.value..];
    }
  }

  lemma {:induction false} PushWhileSkipping(r: Recognizers, s: State, data: bytes)
    requires SkipsReply(s)
    ensures var k := Swallowed(data, Remaining(s.discarded));
            Push(r, s, data)
            == if k.None? then (s.(discarded := s.discarded + |data|), [])
               else Push(r, s.EndDiscard(), data[k.value..])
  {
    hide Swallowed, Step, SkipsReply, Drain;
    SkippingStep(r, s, data);
    DrainUnfolds(r, s.Append(data));
    var k := Swallowed(data, Remaining(s.discarded));
    if k.Some? {
      var rest := Drain(r, s.EndDiscard().Append(data[k.value..])).1;
      assert [] + rest == rest;
    }
  }

  lemma StepWhileSkipping(r: Recognizers, s: State)
    requires s.Valid() && s.discard == Some(HostReplyCsi)
    ensures Step(r, s) == StepDiscard(s)
  {
    hide StepDiscard;
  }

  lemma IdleWhileSkipping(r: Recognizers, s: State)
    requires SkipsReply(s)
    ensures Flush(r, s) == (s, []) && Flush(r, s.EndDiscard()) == (s.EndDiscard(), [])
  {
    PushWhileSkipping(r, s, []);
    assert s.Append([]) == s;
    QuietWhenEmpty(r, s.EndDiscard());
    hide Drain, Swallowed;
    var none: seq<bytes> := [];
    assert none + none == none;
  }

  /** The run without the first `k` bytes that it pushes. */
  function WithoutFirst(inputs: seq<Input>, k: nat): seq<Input> {
    if inputs == [] then []
    else
      match inputs[0]
      case Bytes(data) =>
        var n := if k <= |data| then k else |data|;
        [Input.Bytes(data[n..])] + WithoutFirst(inputs[1..], k - n)
      case _ => [inputs[0]] + WithoutFirst(inputs[1..], k)
  }

  lemma {:induction false} WithoutNone(inputs: seq<Input>)
    ensures WithoutFirst(inputs, 0) == inputs
    decreases |inputs|
  {
    if inputs != [] {
      WithoutNone(inputs[1..]);
      assert inputs == [inputs[0]] + inputs[1..];
    }
  }

  /** A tail without an end is cut off behind exactly 128 parameter bytes. */
  lemma {:induction false} LongTailIsCutOff(w: bytes)
    requires |w| >= 128 && forall i :: 0 <= i < 128 ==> w[i] in CSI_PARAMETERS
    ensures Swallowed(w, Remaining(0)) == Some(128)
  {
    ParametersRunOut(w, 128);
  }

  lemma {:induction false} ParametersRunOut(w: bytes, budget: nat)
    requires |w| >= budget && forall i :: 0 <= i < budget ==> w[i] in CSI_PARAMETERS
    ensures Swallowed(w, budget) == Some(budget)
    decreases budget
  {
    if budget > 0 {
      ParametersRunOut(w[1..], budget - 1);
    }
  }

  /** While the tail of the reply may go on, the run emits nothing and counts what it skips; once the tail has
      ended, the run is that of a framer outside the mode without the bytes of the tail. */
  ghost predicate LosesOnlyTail(r: Recognizers, s: State, inputs: seq<Input>) {
    var k := Swallowed(Pushed(inputs), Remaining(s.discarded));
    if k.None? then
      var (t, out) := Run(r, s, inputs);
      out == [] && SkipsReply(t) && t.discarded == s.discarded + |Pushed(inputs)| < 128
    else
      && k.value <= 129
      && Run(r, s, inputs) == Run(r, s.EndDiscard(), WithoutFirst(inputs, k.value))
  }

  /** What the host-reply mode swallows, over any run of pushes, timeouts and query notices: at most 128
      parameter bytes and one final byte, and nothing behind them. */
  lemma {:induction false} HostReplyLoss(r: Recognizers, s: State, inputs: seq<Input>)
    requires SkipsReply(s)
    ensures LosesOnlyTail(r, s, inputs)
    decreases |inputs|
  {
    hide React, Swallowed, SkipsReply;
    if inputs == [] {
      NothingSwallowed(s);
    } else {
      PushedSplit(inputs);
      SwallowedSplit(Data(inputs[0]), Pushed(inputs[1..]), Remaining(s.discarded));
      match inputs[0]
      case Bytes(data) => HostReplyBytes(r, s, inputs);
      case _ => HostReplyNotice(r, s, inputs);
    }
  }

  lemma NothingSwallowed(s: State)
    requires SkipsReply(s)
    ensures Swallowed([], Remaining(s.discarded)).None?
  {
  }

  lemma {:induction false} PushedSplit(inputs: seq<Input>)
    requires inputs != []
    ensures Pushed(inputs) == Data(inputs[0]) + Pushed(inputs[1..])
  {
  }

  lemma {:induction false} HostReplyNotice(r: Recognizers, s: State, inputs: seq<Input>)
    requires SkipsReply(s) && inputs != [] && !inputs[0].Bytes?
    ensures LosesOnlyTail(r, s, inputs)
    decreases |inputs|, 0
  {
    hide Swallowed, Run, Flush, Pushed;
    var i, rest := inputs[0], inputs[1..];
    IdleWhileSkipping(r, s);
    PushedSplit(inputs);
    assert [] + Pushed(rest) == Pushed(rest);
    var t := React(r, s, i).0;
    assert React(r, s, i) == (t, []) && React(r, s.EndDiscard(), i) == (t.EndDiscard(), []);
    assert SkipsReply(t) && t.discarded == s.discarded;
    HostReplyLoss(r, t, rest);
    RunFirst(r, s, inputs);
    var k := Swallowed(Pushed(rest), Remaining(s.discarded));
    hide React, SkipsReply;
    if k.Some? {
      var others := WithoutFirst(inputs, k.value);
      assert others[0] == i && others[1..] == WithoutFirst(rest, k.value);
      RunFirst(r, s.EndDiscard(), others);
    }
  }

  lemma {:induction false} RunFirst(r: Recognizers, s: State, inputs: seq<Input>)
    requires inputs != []
    ensures var (t, out) := React(r, s, inputs[0]); var (u, rest) := Run(r, t, inputs[1..]);
            Run(r, s, inputs) == (u, out + rest)
    ensures var (t, out) := React(r, s, inputs[0]); out == [] ==> Run(r, s, inputs) == Run(r, t, inputs[1..])
  {
    hide React;
    var rest := Run(r, React(r, s, inputs[0]).0, inputs[1..]).1;
    assert [] + rest == rest;
  }

  lemma {:induction false} HostReplyBytes(r: Recognizers, s: State, inputs: seq<Input>)
    requires SkipsReply(s) && inputs != [] && inputs[0].Bytes?
    ensures LosesOnlyTail(r, s, inputs)
    decreases |inputs|, 0
  {
    hide Swallowed, Run, Drain, Pushed;
    var data, rest := inputs[0].data, inputs[1..];
    var budget := Remaining(s.discarded);
    PushedSplit(inputs);
    SwallowedSplit(data, Pushed(rest), budget);
    PushWhileSkipping(r, s, data);
    RunFirst(r, s, inputs);
    var first := Swallowed(data, budget);
    var k := Swallowed(Pushed(inputs), budget);
    if first.Some? {
      var others := WithoutFirst(inputs, first.value);
      WithoutNone(rest);
      assert others[0] == Input.Bytes(data[first.value..]) && others[1..] == rest;
      RunFirst(r, s.EndDiscard(), others);
    } else {
      var t := s.(discarded := s.discarded + |data|);
      assert SkipsReply(t) && Remaining(t.discarded) == budget - |data|;
      HostReplyLoss(r, t, rest);
      if k.Some? {
        var others := WithoutFirst(inputs, k.value);
        assert data[|data|..] == [];
        assert others[0] == Input.Bytes([]) && others[1..] == WithoutFirst(rest, k.value - |data|);
        RunFirst(r, s.EndDiscard(), others);
        EmptyPush(r, s.EndDiscard());
      }
    }
  }

  lemma EmptyPush(r: Recognizers, s: State)
    requires Plain(s) && s.buffer == []
    ensures Push(r, s, []) == (s, [])
  {
    assert s.Append([]) == s;
    QuietWhenEmpty(r, s);
    RestIsFixed(r, s);
  }
}
