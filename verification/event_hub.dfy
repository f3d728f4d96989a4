/** The bounded log of events that readers poll by sequence number. */
module EventHub {
  const MAX_EVENTS: nat := 512

  /** The events from position `from` on, with their sequence numbers. */
  function Numbered<E>(history: seq<E>, from: nat): (r: seq<(nat, E)>)
    requires from <= |history|
    ensures |r| == |history| - from
    ensures forall i :: 0 <= i < |r| ==> r[i] == (from + i + 1, history[from + i])
  {
    seq(|history| - from, i requires 0 <= i < |history| - from => (from + i + 1, history[from + i]))
  }

  /** How many events have been dropped. */
  function Dropped(count: nat): nat { if count <= MAX_EVENTS then 0 else count - MAX_EVENTS }

  /** What the log holds after the given history: its last events, numbered without gaps. */
  function Retained<E>(history: seq<E>): seq<(nat, E)> { Numbered(history, Dropped(|history|)) }

  /** The answer to a reader that has seen everything up to `sequence`. */
  function After<E>(history: seq<E>, sequence: nat): seq<(nat, E)> {
    var from := if sequence <= Dropped(|history|) then Dropped(|history|) else sequence;
    if from <= |history| then Numbered(history, from) else []
  }

  class Hub<E> {
    var nextSequence: nat
    var events: seq<(nat, E)>
    ghost var history: seq<E>

    /** The log holds the last events of its history, with contiguous numbers. */
    ghost predicate Valid()
      reads this
    {
      nextSequence == |history| && events == Retained(history)
    }

    constructor ()
      ensures Valid() && history == []
    {
      nextSequence, events, history := 0, [], [];
    }

    method Push(event: E)
      requires Valid()
      modifies this
      ensures Valid() && history == old(history) + [event]
    {
      nextSequence := nextSequence + 1;
      events := events + [(nextSequence, event)];
      history := history + [event];
      if |events| > MAX_EVENTS {
        events := events[|events| - MAX_EVENTS..];
      }
    }

    method EventsAfter(sequence: nat) returns (out: seq<(nat, E)>)
      requires Valid()
      ensures out == After(history, sequence)
    {
      out := [];
      var start := Dropped(|history|);
      for i := 0 to |events|
        invariant out == if sequence <= start then events[..i]
                         else if start + i <= sequence then [] else events[sequence - start..i]
      {
        if events[i].0 > sequence {
          out := out + [events[i]];
        }
      }
      assert out == After(history, sequence);
    }

    method CurrentSequence() returns (sequence: nat)
      requires Valid()
      ensures sequence == |history|
    {
      sequence := nextSequence;
    }
  }

  /* ---- a reader that comes back ---- */

  /** The sequence number that a reader asks with next. */
  function LastRead<E>(sequence: nat, answer: seq<(nat, E)>): nat {
    if answer == [] then sequence else answer[|answer| - 1].0
  }

  /** A reader polls once after each round of pushes; everything it is given, in order. */
  function ReadAll<E>(history: seq<E>, sequence: nat, rounds: seq<seq<E>>): seq<(nat, E)>
    decreases |rounds|
  {
    if rounds == [] then []
    else
      var now := history + rounds[0];
      var answer := After(now, sequence);
      answer + ReadAll(now, LastRead(sequence, answer), rounds[1..])
  }

  function Concat<E>(rounds: seq<seq<E>>): seq<E> { if rounds == [] then [] else rounds[0] + Concat(rounds[1..]) }

  predicate Timely<E>(rounds: seq<seq<E>>) { forall i :: 0 <= i < |rounds| ==> |rounds[i]| <= 512 }

  /** One poll of a reader that was up to date gives it the last events of the round, as many as are kept. */
  lemma PollGivesRound<E>(history: seq<E>, round: seq<E>)
    ensures var now := history + round; var answer := After(now, |history|);
            && answer == Numbered(now, |now| - (if |round| <= 512 then |round| else 512))
            && LastRead(|history|, answer) == |now|
  {
    hide Numbered;
    var now := history + round;
    var answer := After(now, |history|);
    if answer != [] {
      assert answer[|answer| - 1].0 == |now|;
    }
  }

  lemma SplitNumbered<E>(now: seq<E>, all: seq<E>, from: nat)
    requires from <= |now| <= |all| && all[..|now|] == now
    ensures Numbered(all, from) == Numbered(now, from) + Numbered(all, |now|)
  {
    hide Numbered;
    var whole, parts := Numbered(all, from), Numbered(now, from) + Numbered(all, |now|);
    assert |whole| == |parts|;
    forall i | 0 <= i < |whole|
      ensures whole[i] == parts[i]
    {
      if from + i < |now| {
        assert all[from + i] == now[from + i];
      }
    }
  }

  /** Exactly-once reading: a reader that starts up to date and asks again with its last sequence number
      gets every later event once and in order if and only if it never lets more than 512 events pass
      between two polls. */
  lemma {:induction false} ReadsExactlyOnce<E>(history: seq<E>, rounds: seq<seq<E>>)
    ensures |ReadAll(history, |history|, rounds)| <= |Concat(rounds)|
    ensures ReadAll(history, |history|, rounds) == Numbered(history + Concat(rounds), |history|) <==> Timely(rounds)
    decreases |rounds|
  {
    hide Numbered, After, LastRead;
    var all := history + Concat(rounds);
    if rounds == [] {
      assert all == history;
      assert Numbered(all, |history|) == [];
    } else {
      var now := history + rounds[0];
      var answer := After(now, |history|);
      var rest := ReadAll(now, |now|, rounds[1..]);
      PollGivesRound(history, rounds[0]);
      ReadsExactlyOnce(now, rounds[1..]);
      assert all == now + Concat(rounds[1..]) && all[..|now|] == now;
      assert ReadAll(history, |history|, rounds) == answer + rest;
      TimelyTail(rounds);
      SplitNumbered(now, all, |history|);
      if |rounds[0]| <= MAX_EVENTS {
        assert (answer + rest)[|answer|..] == rest;
        assert (answer + Numbered(all, |now|))[|answer|..] == Numbered(all, |now|);
      }
    }
  }

  lemma TimelyTail<E>(rounds: seq<seq<E>>)
    requires rounds != []
    ensures Timely(rounds) <==> |rounds[0]| <= 512 && Timely(rounds[1..])
  {
    assert forall i :: 0 < i < |rounds| ==> rounds[i] == rounds[1..][i - 1];
  }
}
