/** Metadata tokens with deadlines: patches, sweeps, and the sequence numbers that guard them. */
module MetadataTokens {
  import opened Options

  type Instant = nat

  datatype Token = Token(value: string, expiresAt: Option<Instant>)

  type Entries = map<string, Token>
  type Changes = map<string, Option<string>>

  /** `now.checked_add(ttl)`: a deadline past the last instant is no deadline. */
  function Deadline(ttl: Option<nat>, now: Instant, lastInstant: Instant): Option<Instant> {
    if ttl.None? || now + ttl.value > lastInstant then None else Some(now + ttl.value)
  }

  /** The entries after a patch: named keys are set or cleared, the others stay. */
  function Patched(e: Entries, changes: Changes, expiresAt: Option<Instant>): Entries {
    map k | k in e.Keys + changes.Keys && (k in changes ==> changes[k].Some?) ::
      if k in changes then Token(changes[k].value, expiresAt) else e[k]
  }

  predicate Live(t: Token, now: Instant) { t.expiresAt.Some? ==> t.expiresAt.value > now }

  function Swept(e: Entries, now: Instant): Entries { map k | k in e && Live(e[k], now) :: e[k] }

  function Values(e: Entries): map<string, string> { map k | k in e :: e[k].value }

  /** The earliest deadline, if there is one. */
  predicate IsNextExpiry(e: Entries, r: Option<Instant>) {
    && (forall k :: k in e && e[k].expiresAt.Some? ==> r.Some? && r.value <= e[k].expiresAt.value)
    && (r.Some? ==> exists k :: k in e && e[k].expiresAt == r)
  }

  /** A sweep changes something exactly from the next expiry on. */
  lemma SweepBeforeNextExpiry(e: Entries, r: Option<Instant>, now: Instant)
    requires IsNextExpiry(e, r)
    ensures Swept(e, now) == e <==> r.None? || now < r.value
  {
    if r.Some? {
      var k :| k in e && e[k].expiresAt == r;
      if now >= r.value {
        assert k !in Swept(e, now);
      }
    }
  }

  /** How long a token lives: after a patch with a time to live, a sweep finds the key it has set until that time
      has passed since the patch, and for ever without one or when the clock cannot reach that far. */
  lemma TimeToLive(
      e: Entries, changes: Changes, ttl: Option<nat>, now: Instant, lastInstant: Instant, k: string, later: Instant)
    requires k in changes && changes[k].Some?
    ensures var swept := Swept(Patched(e, changes, Deadline(ttl, now, lastInstant)), later);
            && (k in swept <==> ttl.None? || now + ttl.value > lastInstant || later < now + ttl.value)
            && (k in swept ==> Values(swept)[k] == changes[k].value)
  {
  }

  /** What a patch leaves alone: the keys that it does not name; and what it clears is gone. */
  lemma PatchIsSelective(e: Entries, changes: Changes, expiresAt: Option<Instant>, k: string)
    ensures var p := Patched(e, changes, expiresAt);
            && (k !in changes ==> (k in p <==> k in e) && (k in e ==> p[k] == e[k]))
            && (k in changes && changes[k].None? ==> k !in p)
  {
  }

  /* ---- eager sweeps against lazy expiry ---- */

  datatype Op = Patch(changes: Changes, expiresAt: Option<Instant>) | Sweep(at: Instant)

  function Run(ops: seq<Op>): Entries {
    if ops == [] then map[]
    else
      var before := Run(ops[..|ops| - 1]);
      match ops[|ops| - 1]
      case Patch(changes, expiresAt) => Patched(before, changes, expiresAt)
      case Sweep(at) => Swept(before, at)
  }

  /** What the last patch that names the key gave it; sweeps play no part. */
  function LastPatch(ops: seq<Op>, k: string): Option<Token> {
    if ops == [] then None
    else
      var last := ops[|ops| - 1];
      if last.Patch? && k in last.changes then
        if last.changes[k].Some? then Some(Token(last.changes[k].value, last.expiresAt)) else None
      else LastPatch(ops[..|ops| - 1], k)
  }

  /** No sweep ran at a later time than `now`. */
  predicate SweptUntil(ops: seq<Op>, now: Instant) {
    forall i :: 0 <= i < |ops| && ops[i].Sweep? ==> ops[i].at <= now
  }

  lemma {:induction false} LiveEntries(ops: seq<Op>, now: Instant, k: string)
    requires SweptUntil(ops, now)
    ensures (k in Run(ops) && Live(Run(ops)[k], now))
            <==> (LastPatch(ops, k).Some? && Live(LastPatch(ops, k).value, now))
    ensures k in Run(ops) && Live(Run(ops)[k], now) ==> LastPatch(ops, k) == Some(Run(ops)[k])
    decreases |ops|
  {
    if ops != [] {
      LiveEntries(ops[..|ops| - 1], now, k);
    }
  }

  /** Eager sweeping refines lazy expiry: whatever patches came, and however often it was swept in
      between at times up to now, right after a sweep the values are those of the last patch of each key
      whose deadline has not passed. */
  lemma {:induction false} SweepingRefinesLazyExpiry(ops: seq<Op>, now: Instant, k: string)
    requires SweptUntil(ops, now)
    ensures var values := Values(Swept(Run(ops), now)); var last := LastPatch(ops, k);
            && (k in values <==> last.Some? && Live(last.value, now))
            && (k in values ==> values[k] == last.value.value)
  {
    LiveEntries(ops, now, k);
  }

  /* ---- sequence numbers ---- */

  const MAX_SEQUENCE_SOURCES: nat := 32

  datatype Verdict = Accepted | Stale | TooManySources

  /** `accept_sequence` */
  function Accept(seen: map<string, nat>, source: string, number: Option<nat>): (map<string, nat>, Verdict) {
    if number.None? then (seen, Accepted)
    else if source in seen && number.value <= seen[source] then (seen, Stale)
    else if source !in seen && |seen| >= MAX_SEQUENCE_SOURCES then (seen, TooManySources)
    else (seen[source := number.value], Accepted)
  }

  /** The numbers of `source` that were accepted, in order. */
  function AcceptedNumbers(seen: map<string, nat>, requests: seq<(string, Option<nat>)>, source: string): seq<nat>
    decreases |requests|
  {
    if requests == [] then []
    else
      var (next, verdict) := Accept(seen, requests[0].0, requests[0].1);
      (if verdict.Accepted? && requests[0].0 == source && requests[0].1.Some? then [requests[0].1.value] else [])
      + AcceptedNumbers(next, requests[1..], source)
  }

  function SeenAfter(seen: map<string, nat>, requests: seq<(string, Option<nat>)>): map<string, nat>
    decreases |requests|
  {
    if requests == [] then seen else SeenAfter(Accept(seen, requests[0].0, requests[0].1).0, requests[1..])
  }

  lemma AcceptKeepsBound(seen: map<string, nat>, source: string, number: Option<nat>)
    requires |seen| <= MAX_SEQUENCE_SOURCES
    ensures |Accept(seen, source, number).0| <= MAX_SEQUENCE_SOURCES
  {
    var next := Accept(seen, source, number).0;
    if source !in seen && next != seen {
      assert next.Keys == seen.Keys + {source};
      assert |next| == |next.Keys| && |seen| == |seen.Keys|;
    } else {
      assert next.Keys == seen.Keys;
      assert |next| == |next.Keys| && |seen| == |seen.Keys|;
    }
  }

  /** No run remembers more than the allowed number of sources. */
  lemma {:induction false} SourcesStayBounded(seen: map<string, nat>, requests: seq<(string, Option<nat>)>)
    requires |seen| <= MAX_SEQUENCE_SOURCES
    ensures |SeenAfter(seen, requests)| <= MAX_SEQUENCE_SOURCES
    decreases |requests|
  {
    hide Accept;
    if requests != [] {
      AcceptKeepsBound(seen, requests[0].0, requests[0].1);
      SourcesStayBounded(Accept(seen, requests[0].0, requests[0].1).0, requests[1..]);
    }
  }

  predicate Rising(numbers: seq<nat>) { forall i, j :: 0 <= i < j < |numbers| ==> numbers[i] < numbers[j] }

  predicate AllAbove(numbers: seq<nat>, n: nat) { forall i :: 0 <= i < |numbers| ==> n < numbers[i] }

  /** Over every run the accepted numbers of a source rise strictly, from above what was seen before. */
  lemma {:induction false} AcceptedNumbersRise(seen: map<string, nat>, requests: seq<(string, Option<nat>)>,
      source: string)
    ensures Rising(AcceptedNumbers(seen, requests, source))
    ensures source in seen ==> AllAbove(AcceptedNumbers(seen, requests, source), seen[source])
    decreases |requests|
  {
    if requests != [] {
      var (next, verdict) := Accept(seen, requests[0].0, requests[0].1);
      AcceptedNumbersRise(next, requests[1..], source);
      if verdict.Accepted? && requests[0].0 == source && requests[0].1.Some? {
        var n := requests[0].1.value;
        assert next[source] == n && (source in seen ==> seen[source] < n);
        RisingCons(n, AcceptedNumbers(next, requests[1..], source));
      } else {
        assert source in seen ==> source in next && next[source] == seen[source];
        assert AcceptedNumbers(seen, requests, source) == AcceptedNumbers(next, requests[1..], source);
      }
    }
  }

  /** What a run remembers of a source is the last number that it accepted from it. */
  lemma {:induction false} SeenIsLastAccepted(
      seen: map<string, nat>, requests: seq<(string, Option<nat>)>, source: string)
    ensures var numbers := AcceptedNumbers(seen, requests, source); var after := SeenAfter(seen, requests);
            if numbers == [] then
              (source in after <==> source in seen) && (source in seen ==> after[source] == seen[source])
            else source in after && after[source] == numbers[|numbers| - 1]
    decreases |requests|
  {
    if requests != [] {
      SeenIsLastAccepted(Accept(seen, requests[0].0, requests[0].1).0, requests[1..], source);
    }
  }

  /** When a request is accepted, after any run from the start: always without a number, and otherwise exactly if
      the number is above all that were accepted from its source, or, for a source that is new,
      if there is room for it. */
  lemma {:induction false} AcceptsFreshNumbers(
      requests: seq<(string, Option<nat>)>, source: string, number: Option<nat>)
    ensures var numbers := AcceptedNumbers(map[], requests, source); var after := SeenAfter(map[], requests);
            Accept(after, source, number).1
            == if number.None? then Accepted
               else if numbers == [] then (if |after| < 32 then Accepted else TooManySources)
               else if forall i :: 0 <= i < |numbers| ==> numbers[i] < number.value then Accepted
               else Stale
  {
    SeenIsLastAccepted(map[], requests, source);
    AcceptedNumbersRise(map[], requests, source);
    hide AcceptedNumbers, SeenAfter;
    var numbers := AcceptedNumbers(map[], requests, source);
    if numbers != [] && number.Some? && numbers[|numbers| - 1] < number.value {
      assert forall i :: 0 <= i < |numbers| ==> numbers[i] <= numbers[|numbers| - 1];
    }
  }

  lemma RisingCons(n: nat, rest: seq<nat>)
    requires Rising(rest) && AllAbove(rest, n)
    ensures Rising([n] + rest)
    ensures forall m: nat :: m < n ==> AllAbove([n] + rest, m)
  {
  }

  /* ---- the token store ---- */

  /** The patch changes the entry of this key. */
  predicate Touches(e: Entries, changes: Changes, expiresAt: Option<Instant>, k: string)
    requires k in changes
  {
    if changes[k].Some? then k !in e || e[k] != Token(changes[k].value, expiresAt) else k in e
  }

  lemma PatchedTells(e: Entries, changes: Changes, expiresAt: Option<Instant>)
    ensures Patched(e, changes, expiresAt) != e <==> exists k :: k in changes && Touches(e, changes, expiresAt, k)
  {
    var p := Patched(e, changes, expiresAt);
    if k :| k in changes && Touches(e, changes, expiresAt, k) {
      assert (k in e) != (k in p) || e[k] != p[k];
    } else {
      assert p.Keys == e.Keys;
      assert forall k :: k in e ==> p[k] == e[k];
    }
  }

  lemma PatchedNothing(e: Entries, changes: Changes, expiresAt: Option<Instant>)
    requires changes == map[]
    ensures Patched(e, changes, expiresAt) == e
  {
  }

  lemma PatchedKeysStep(e: Entries, changes: Changes, todo: set<string>, k: string)
    requires k in todo && todo <= changes.Keys
    ensures Patched(e, changes - (todo - {k}), None).Keys
            == if changes[k].Some? then Patched(e, changes - todo, None).Keys + {k}
               else Patched(e, changes - todo, None).Keys - {k}
  {
    PatchedStep(e, changes, todo, k, None);
    hide Patched;
  }

  /** The deadline does not matter for how many keys a patch leaves. */
  lemma PatchedSize(e: Entries, changes: Changes, a: Option<Instant>, b: Option<Instant>)
    ensures |Patched(e, changes, b)| == |Patched(e, changes, a).Keys|
  {
    assert Patched(e, changes, a).Keys == Patched(e, changes, b).Keys;
    assert |Patched(e, changes, b)| == |Patched(e, changes, b).Keys|;
  }

  /** Patching one key more. */
  lemma PatchedStep(e: Entries, changes: Changes, todo: set<string>, k: string, expiresAt: Option<Instant>)
    requires k in todo && todo <= changes.Keys
    ensures var before := Patched(e, changes - todo, expiresAt);
            var after := Patched(e, changes - (todo - {k}), expiresAt);
            && (k in before <==> k in e) && (k in e ==> before[k] == e[k])
            && after == if changes[k].Some? then before[k := Token(changes[k].value, expiresAt)] else before - {k}
  {
  }

  class TokenStore {
    const lastInstant: Instant
    var entries: Entries

    constructor (lastInstant: Instant)
      ensures entries == map[] && this.lastInstant == lastInstant
    {
      this.lastInstant := lastInstant;
      entries := map[];
    }

    /** Set and clear the named keys; true when an entry changed. */
    method Patch(changes: Changes, ttl: Option<nat>, now: Instant) returns (changed: bool)
      modifies this
      ensures entries == Patched(old(entries), changes, Deadline(ttl, now, lastInstant))
      ensures changed <==> entries != old(entries)
    {
      hide Patched;
      var expiresAt := Deadline(ttl, now, lastInstant);
      changed := false;
      var todo := changes.Keys;
      PatchedNothing(entries, changes - todo, expiresAt);
      while todo != {}
        invariant todo <= changes.Keys
        invariant entries == Patched(old(entries), changes - todo, expiresAt)
        invariant changed <==> exists k :: k in changes && k !in todo && Touches(old(entries), changes, expiresAt, k)
        decreases |todo|
      {
        var k :| k in todo;
        PatchedStep(old(entries), changes, todo, k, expiresAt);
        todo := todo - {k};
        if changes[k].Some? {
          var token := Token(changes[k].value, expiresAt);
          if k !in entries || entries[k] != token {
            entries := entries[k := token];
            changed := true;
          } else {
            assert entries[k := token] == entries;
          }
        } else if k in entries {
          entries := entries - {k};
          changed := true;
        } else {
          assert entries - {k} == entries;
        }
      }
      assert changes - {} == changes;
      PatchedTells(old(entries), changes, expiresAt);
    }

    /** `key_count_after_patch`: the number of keys that a patch would leave, whatever its deadline. */
    method KeyCountAfterPatch(changes: Changes, ghost expiresAt: Option<Instant>) returns (count: nat)
      ensures count == |Patched(entries, changes, expiresAt)|
    {
      hide Patched;
      var keys := entries.Keys;
      var todo := changes.Keys;
      PatchedNothing(entries, changes - todo, None);
      while todo != {}
        invariant todo <= changes.Keys
        invariant keys == Patched(entries, changes - todo, None).Keys
        decreases |todo|
      {
        var k :| k in todo;
        PatchedKeysStep(entries, changes, todo, k);
        todo := todo - {k};
        keys := if changes[k].Some? then keys + {k} else keys - {k};
      }
      assert changes - {} == changes;
      count := |keys|;
      PatchedSize(entries, changes, None, expiresAt);
    }

    /** `expire_at`: drop what is due; true when something was. */
    method ExpireAt(now: Instant) returns (changed: bool)
      modifies this
      ensures entries == Swept(old(entries), now)
      ensures changed <==> entries != old(entries)
    {
      var before := |entries|;
      var kept := Swept(entries, now);
      assert kept.Keys <= entries.Keys;
      CardinalityTells(kept.Keys, entries.Keys);
      entries := kept;
      changed := |entries| != before;
    }

    /** `next_expiry` */
    method NextExpiry() returns (r: Option<Instant>)
      ensures IsNextExpiry(entries, r)
    {
      r := None;
      var todo := entries.Keys;
      while todo != {}
        invariant todo <= entries.Keys
        invariant forall k :: k in entries && k !in todo && entries[k].expiresAt.Some? ==>
                    r.Some? && r.value <= entries[k].expiresAt.value
        invariant r.Some? ==> exists k :: k in entries && entries[k].expiresAt == r
        decreases |todo|
      {
        var k :| k in todo;
        todo := todo - {k};
        var deadline := entries[k].expiresAt;
        if deadline.Some? && (r.None? || deadline.value < r.value) {
          r := deadline;
        }
      }
    }
  }

  lemma CardinalityTells(a: set<string>, b: set<string>)
    requires a <= b
    ensures |a| == |b| <==> a == b
  {
    assert b == a + (b - a);
    assert |b| == |a| + |b - a|;
  }
}
