/** Encoding a plugin id as one path component that is safe on every file system. */
module PluginPaths {
  import opened Options
  import opened Bytes

  const MAX_CHARS: nat := 120
  const HASH_CHARS: nat := 12
  const DOT: byte := 0x2e
  const PERCENT: byte := 0x25
  const DASH: byte := 0x2d
  const ENCODED_DOT: bytes := [0x25, 0x32, 0x45]
  const EMPTY_NAME: bytes := [0x25, 0x70, 0x6c, 0x75, 0x67, 0x69, 0x6e]

  predicate IsLower(b: byte) { 0x61 <= b <= 0x7a }

  /** Bytes that stand for themselves. */
  predicate IsPlain(b: byte) { IsLower(b) || IsDigit(b) || b == DOT || b == 0x5f || b == DASH }

  function HexDigit(n: nat): byte
    requires n < 16
  {
    if n < 10 then 0x30 + n else 0x41 + (n - 10)
  }

  function HexValue(b: byte): Option<nat> {
    if IsDigit(b) then Some(b - 0x30) else if 0x41 <= b <= 0x46 then Some(b - 0x41 + 10) else None
  }

  function EncodeByte(b: byte): bytes {
    if IsPlain(b) then [b] else [PERCENT, HexDigit(b / 16), HexDigit(b % 16)]
  }

  function EncodeAll(v: bytes): bytes { if v == [] then [] else EncodeByte(v[0]) + EncodeAll(v[1..]) }

  /** A name must not end in a dot. */
  function WithoutFinalDot(c: bytes): bytes {
    if c != [] && c[|c| - 1] == DOT then c[..|c| - 1] + ENCODED_DOT else c
  }

  function Upper(b: byte): byte { if IsLower(b) then b - 0x20 else b }

  function UpperAll(s: bytes): bytes { seq(|s|, i requires 0 <= i < |s| => Upper(s[i])) }

  /** The device names that Windows reserves, in capitals. */
  predicate IsReserved(s: bytes) {
    || s == [0x43, 0x4f, 0x4e] || s == [0x50, 0x52, 0x4e] || s == [0x41, 0x55, 0x58] || s == [0x4e, 0x55, 0x4c]
    || (|s| == 4 && (s[..3] == [0x43, 0x4f, 0x4d] || s[..3] == [0x4c, 0x50, 0x54]) && 0x31 <= s[3] <= 0x39)
  }

  /** The part in front of the first dot. */
  function Stem(c: bytes): bytes {
    match IndexIn(c, 0, {DOT})
    case None => c
    case Some(i) => c[..i]
  }

  /** `has_windows_reserved_stem_for_path_component` */
  predicate HasReservedStem(c: bytes) { IsReserved(UpperAll(Stem(c))) }

  /** The name before its length is looked at. */
  function Readable(v: bytes): bytes {
    var c := WithoutFinalDot(EncodeAll(v));
    if c == [] then EMPTY_NAME
    else if HasReservedStem(c) then [PERCENT] + c
    else c
  }

  /** A short hash of the id: lower-case hexadecimal digits. */
  predicate IsHash(h: bytes) {
    |h| == HASH_CHARS && forall i :: 0 <= i < |h| ==> IsDigit(h[i]) || 0x61 <= h[i] <= 0x66
  }

  /** `plugin_config_path_component` */
  function Component(v: bytes, hash: bytes): bytes
    requires IsHash(hash)
  {
    var c := Readable(v);
    if |c| <= MAX_CHARS then c
    else c[..MAX_CHARS - |hash| - 1] + [DASH] + hash
  }

  /** The encoder as it runs: byte by byte, then adjusting the end, the stem and the length. */
  method PluginConfigPathComponent(value: bytes, hash: bytes) returns (component: bytes)
    requires IsHash(hash)
    ensures component == Component(value, hash)
    ensures 1 <= |component| <= MAX_CHARS && component[|component| - 1] != DOT && !HasReservedStem(component)
  {
    hide EncodeAll, EncodeByte, HasReservedStem, Component;
    component := [];
    var i := 0;
    assert value[0..] == value && component + EncodeAll(value) == EncodeAll(value);
    while i < |value|
      invariant i <= |value|
      invariant component + EncodeAll(value[i..]) == EncodeAll(value)
    {
      EncodeNext(value, i);
      ghost var done := component;
      component := component + EncodeByte(value[i]);
      assert component + EncodeAll(value[i + 1..]) == done + (EncodeByte(value[i]) + EncodeAll(value[i + 1..]));
      i := i + 1;
    }
    NothingEncoded();
    assert value[|value|..] == [] && component == EncodeAll(value);
    component := FinishComponent(value, component, hash);
  }

  lemma EncodeNext(v: bytes, i: nat)
    requires i < |v|
    ensures EncodeAll(v[i..]) == EncodeByte(v[i]) + EncodeAll(v[i + 1..])
  {
    assert v[i..][0] == v[i] && v[i..][1..] == v[i + 1..];
  }

  /** The part behind the loop. */
  method FinishComponent(ghost value: bytes, encoded: bytes, hash: bytes) returns (component: bytes)
    requires IsHash(hash) && encoded == EncodeAll(value)
    ensures component == Component(value, hash)
    ensures 1 <= |component| <= MAX_CHARS && component[|component| - 1] != DOT && !HasReservedStem(component)
  {
    hide EncodeAll, HasReservedStem, Component, IsHash;
    ComponentIsSafe(value, hash);
    ComponentUnfolds(value, hash);
    component := encoded;
    if component != [] && component[|component| - 1] == DOT {
      component := component[..|component| - 1];
      component := component + ENCODED_DOT;
    }
    assert component == WithoutFinalDot(encoded);
    hide WithoutFinalDot;
    if component == [] {
      return EMPTY_NAME;
    }
    if HasReservedStem(component) {
      component := [PERCENT] + component;
    }
    hide Readable;
    if |component| > MAX_CHARS {
      component := component[..MAX_CHARS - |hash| - 1] + [DASH] + hash;
    }
  }

  lemma {:induction false} ComponentUnfolds(v: bytes, hash: bytes)
    requires IsHash(hash)
    ensures |hash| == HASH_CHARS
    ensures Component(v, hash) == if |Readable(v)| <= MAX_CHARS then Readable(v)
                                  else Readable(v)[..MAX_CHARS - |hash| - 1] + [DASH] + hash
    ensures WithoutFinalDot(EncodeAll(v)) == [] ==> Component(v, hash) == EMPTY_NAME
  {
    hide EncodeAll, HasReservedStem, WithoutFinalDot;
  }

  /* ---- decoding ---- */

  /** Read escapes back; None when an escape is cut short or not hexadecimal. */
  function DecodeAll(c: bytes): Option<bytes> {
    if c == [] then Some([])
    else if c[0] != PERCENT then
      var rest := DecodeAll(c[1..]);
      if rest.None? then None else Some([c[0]] + rest.value)
    else if |c| < 3 || HexValue(c[1]).None? || HexValue(c[2]).None? then None
    else
      var rest := DecodeAll(c[3..]);
      if rest.None? then None else Some([16 * HexValue(c[1]).value + HexValue(c[2]).value] + rest.value)
  }

  /** A percent sign in front of a lower-case letter marks a reserved stem or the empty name. */
  function Decode(c: bytes): Option<bytes> {
    if c == EMPTY_NAME then Some([])
    else if |c| >= 2 && c[0] == PERCENT && IsLower(c[1]) then DecodeAll(c[1..])
    else DecodeAll(c)
  }

  lemma HexRoundTrip(n: nat)
    requires n < 16
    ensures HexValue(HexDigit(n)) == Some(n) && !IsLower(HexDigit(n))
  {
  }

  lemma {:induction false} DecodeAppend(v: bytes, more: bytes)
    requires DecodeAll(more).Some?
    ensures DecodeAll(EncodeAll(v) + more) == Some(v + DecodeAll(more).value)
    decreases |v|
  {
    hide DecodeAll, EncodeByte;
    var tail := DecodeAll(more).value;
    if v == [] {
      assert EncodeAll(v) + more == more && v + tail == tail;
    } else {
      var rest := EncodeAll(v[1..]) + more;
      DecodeAppend(v[1..], more);
      assert EncodeAll(v) + more == EncodeByte(v[0]) + rest;
      DecodeOne(v[0], rest);
      assert [v[0]] + (v[1..] + tail) == v + tail;
    }
  }

  lemma {:induction false} DecodeOne(b: byte, rest: bytes)
    requires DecodeAll(rest).Some?
    ensures DecodeAll(EncodeByte(b) + rest) == Some([b] + DecodeAll(rest).value)
  {
    var c := EncodeByte(b) + rest;
    if IsPlain(b) {
      assert c[1..] == rest;
    } else {
      HexRoundTrip(b / 16);
      HexRoundTrip(b % 16);
      assert c[3..] == rest;
    }
  }

  lemma {:induction false} DecodeEncoded(v: bytes)
    ensures DecodeAll(EncodeAll(v)) == Some(v)
  {
    assert DecodeAll([]) == Some([]);
    hide DecodeAll, EncodeAll;
    DecodeAppend(v, []);
    assert EncodeAll(v) + [] == EncodeAll(v) && v + [] == v;
  }

  lemma {:induction false} EncodeAppend(a: bytes, b: bytes)
    ensures EncodeAll(a + b) == EncodeAll(a) + EncodeAll(b)
    decreases |a|
  {
    if a == [] {
      assert a + b == b;
    } else {
      assert (a + b)[1..] == a[1..] + b;
      EncodeAppend(a[1..], b);
    }
  }

  /** The encoding ends in a dot exactly when the id does. */
  lemma FinalDot(v: bytes)
    requires v != []
    ensures var c := EncodeAll(v); var body := v[..|v| - 1];
            && c != [] && (c[|c| - 1] == DOT <==> v[|v| - 1] == DOT)
            && (v[|v| - 1] == DOT ==> c == EncodeAll(body) + [DOT])
  {
    var body, last := v[..|v| - 1], v[|v| - 1];
    assert v == body + [last];
    EncodeAppend(body, [last]);
    assert [last][1..] == [];
    assert EncodeAll([last]) == EncodeByte(last) + EncodeAll([]) == EncodeByte(last);
  }

  lemma DecodeDot()
    ensures DecodeAll(ENCODED_DOT) == Some([DOT])
  {
    var c := ENCODED_DOT;
    assert c[3..] == [] && DecodeAll([]) == Some([]);
    assert HexValue(c[1]) == Some(2) && HexValue(c[2]) == Some(14);
    assert [16 * 2 + 14] + [] == [DOT];
  }

  lemma {:induction false} DecodeWithoutDot(body: bytes)
    ensures DecodeAll(EncodeAll(body) + ENCODED_DOT) == Some(body + [DOT])
  {
    DecodeDot();
    DecodeAppend(body, ENCODED_DOT);
  }

  lemma EncodedWithoutDot(v: bytes)
    requires v != []
    ensures var body := v[..|v| - 1];
            WithoutFinalDot(EncodeAll(v)) == if v[|v| - 1] == DOT then EncodeAll(body) + ENCODED_DOT else EncodeAll(v)
  {
    hide EncodeAll;
    FinalDot(v);
    FinalDotEncoded(EncodeAll(v[..|v| - 1]));
  }

  lemma {:induction false} DecodeReadableBody(v: bytes)
    ensures DecodeAll(WithoutFinalDot(EncodeAll(v))) == Some(v)
  {
    hide DecodeAll, EncodeAll, WithoutFinalDot;
    DecodeEncoded(v);
    if v == [] {
      NothingEncoded();
    } else if v[|v| - 1] == DOT {
      DecodeReplacedDot(v);
    } else {
      EncodedWithoutDot(v);
    }
  }

  lemma NothingEncoded()
    ensures EncodeAll([]) == [] == WithoutFinalDot([])
  {
  }

  lemma {:induction false} DecodeReplacedDot(v: bytes)
    requires v != [] && v[|v| - 1] == DOT
    ensures DecodeAll(WithoutFinalDot(EncodeAll(v))) == Some(v)
  {
    hide DecodeAll, EncodeAll, WithoutFinalDot;
    EncodedWithoutDot(v);
    var body := v[..|v| - 1];
    DecodeWithoutDot(body);
    assert v == body + [DOT];
  }

  lemma FinalDotEncoded(c: bytes)
    ensures WithoutFinalDot(c + [DOT]) == c + ENCODED_DOT
  {
    assert (c + [DOT])[..|c|] == c;
  }

  /** An encoded name starts with a plain byte or with an escape, never with a marked letter. */
  lemma {:induction false} StartsPlainOrEscaped(v: bytes)
    requires v != []
    ensures var c := WithoutFinalDot(EncodeAll(v));
            c != [] && (if c[0] == PERCENT then |c| >= 3 && !IsLower(c[1]) else IsPlain(c[0]))
  {
    var e := EncodeAll(v);
    assert e == EncodeByte(v[0]) + EncodeAll(v[1..]);
    if !IsPlain(v[0]) {
      HexRoundTrip(v[0] / 16);
      assert e[0] == PERCENT && e[1] == HexDigit(v[0] / 16) && |e| >= 3;
      assert |e| == 3 ==> e[2] == HexDigit(v[0] % 16) != DOT;
    } else {
      assert e[0] == v[0];
      assert |e| == 1 ==> e == [v[0]];
    }
  }

  lemma ReservedStartsWithLetter(c: bytes)
    requires HasReservedStem(c) && c != []
    ensures c[0] != PERCENT && |c| >= 3 && (IsPlain(c[0]) ==> IsLower(c[0]))
    ensures c != EMPTY_NAME[1..]
  {
    PluginIsNotReserved();
    var s := Stem(c);
    assert |UpperAll(s)| == |s|;
    assert UpperAll(s)[0] == Upper(s[0]) && s[0] == c[0];
  }

  lemma PluginIsNotReserved()
    ensures !HasReservedStem(EMPTY_NAME[1..])
  {
    var c := EMPTY_NAME[1..];
    assert IndexIn(c, 0, {DOT}).None?;
    LongStemIsFree(c);
  }

  /** The readable name determines the id. */
  lemma DecodeReadable(v: bytes)
    ensures Decode(Readable(v)) == Some(v)
  {
    var c := WithoutFinalDot(EncodeAll(v));
    DecodeReadableBody(v);
    assert EncodeAll([]) == [];
    if v != [] {
      StartsPlainOrEscaped(v);
      hide EncodeAll, DecodeAll, HasReservedStem;
      assert EMPTY_NAME[0] == PERCENT && IsLower(EMPTY_NAME[1]);
      if HasReservedStem(c) {
        ReservedStartsWithLetter(c);
        assert ([PERCENT] + c)[1..] == c;
        assert EMPTY_NAME == [PERCENT] + EMPTY_NAME[1..];
      }
    }
  }

  /** The id is not cut: its readable name fits. */
  predicate Fits(v: bytes) { |Readable(v)| <= MAX_CHARS }

  /** Round trip: decoding the component of an id that fits gives the id back. */
  lemma ComponentRoundTrip(v: bytes, hash: bytes)
    requires IsHash(hash) && Fits(v)
    ensures Decode(Component(v, hash)) == Some(v)
  {
    DecodeReadable(v);
  }

  /** Injectivity: two ids that fit have the same component only if they are the same id. */
  lemma ComponentInjective(v: bytes, w: bytes, hash: bytes, hash': bytes)
    requires IsHash(hash) && IsHash(hash') && Fits(v) && Fits(w)
    ensures Component(v, hash) == Component(w, hash') <==> v == w
  {
    ComponentRoundTrip(v, hash);
    ComponentRoundTrip(w, hash');
  }

  /* ---- safety ---- */

  lemma MarkedStemIsFree(c: bytes)
    ensures !HasReservedStem([PERCENT] + c)
  {
    var m := [PERCENT] + c;
    var s := Stem(m);
    assert s != [] ==> UpperAll(s)[0] == Upper(s[0]) && s[0] == PERCENT;
  }

  lemma LongStemIsFree(c: bytes)
    requires |Stem(c)| > 4
    ensures !HasReservedStem(c)
  {
    assert |UpperAll(Stem(c))| == |Stem(c)|;
  }

  /** Cutting the name behind its first hundred characters does not uncover a reserved stem. */
  lemma CutStemIsFree(c: bytes, n: nat, tail: bytes)
    requires !HasReservedStem(c) && 4 < n <= |c|
    ensures !HasReservedStem(c[..n] + tail)
  {
    var m := c[..n] + tail;
    var i, j := IndexIn(c, 0, {DOT}), IndexIn(m, 0, {DOT});
    assert forall k :: 0 <= k < n ==> m[k] == c[k];
    if i.Some? && i.value < n {
      assert m[i.value] == c[i.value];
      assert j == i;
      assert Stem(m) == Stem(c) by { assert m[..i.value] == c[..i.value]; }
    } else {
      assert |Stem(m)| >= n;
      LongStemIsFree(m);
    }
  }

  /** For every id, cut or not: the component is not empty, not too long, does not end in a dot, and does
      not have a reserved stem. */
  lemma ComponentIsSafe(v: bytes, hash: bytes)
    requires IsHash(hash)
    ensures var c := Component(v, hash);
            1 <= |c| <= MAX_CHARS && c[|c| - 1] != DOT && !HasReservedStem(c)
  {
    ReadableIsSafe(v);
    hide Readable, HasReservedStem;
    var c := Readable(v);
    if |c| > MAX_CHARS {
      CutStemIsFree(c, MAX_CHARS - HASH_CHARS - 1, [DASH] + hash);
      assert Component(v, hash) == c[..MAX_CHARS - HASH_CHARS - 1] + ([DASH] + hash);
    }
  }

  lemma WithoutFinalDotEnds(c: bytes)
    ensures var d := WithoutFinalDot(c); d != [] ==> d[|d| - 1] != DOT
  {
  }

  lemma ReadableIsSafe(v: bytes)
    ensures Readable(v) != [] && Readable(v)[|Readable(v)| - 1] != DOT && !HasReservedStem(Readable(v))
  {
    hide HasReservedStem, EncodeAll, WithoutFinalDot;
    var body := WithoutFinalDot(EncodeAll(v));
    WithoutFinalDotEnds(EncodeAll(v));
    MarkedStemIsFree(body);
    if body == [] {
      MarkedStemIsFree(EMPTY_NAME[1..]);
      assert EMPTY_NAME == [PERCENT] + EMPTY_NAME[1..];
    }
  }

  /* ---- the alphabet and the names kept free, spelled out ---- */

  /** The device names of Windows. */
  const DEVICES: seq<string> := [
    "CON", "PRN", "AUX", "NUL",
    "COM1", "COM2", "COM3", "COM4", "COM5", "COM6", "COM7", "COM8", "COM9",
    "LPT1", "LPT2", "LPT3", "LPT4", "LPT5", "LPT6", "LPT7", "LPT8", "LPT9"]

  predicate IsText(b: bytes, s: string) { |b| == |s| && forall i :: 0 <= i < |b| ==> b[i] == s[i] as int }

  /** Exactly these names are reserved. */
  lemma ReservedAreDevices(b: bytes)
    ensures IsReserved(b) <==> exists i :: 0 <= i < |DEVICES| && IsText(b, DEVICES[i])
  {
    if IsReserved(b) {
      DeviceFound(b);
    }
    forall i | 0 <= i < |DEVICES| && IsText(b, DEVICES[i])
      ensures IsReserved(b)
    {
      DeviceIsReserved(b, i);
    }
  }

  lemma DeviceIsReserved(b: bytes, i: nat)
    requires i < |DEVICES| && IsText(b, DEVICES[i])
    ensures IsReserved(b)
  {
    assert |b| == 4 ==> b[..3] == [b[0], b[1], b[2]];
    if i < 4 {
    } else if i < 13 {
      ComDevices(i);
    } else {
      LptDevices(i);
    }
  }

  lemma ComDevices(i: nat)
    requires 4 <= i < 13
    ensures var s := DEVICES[i]; |s| == 4 && s[..3] == "COM" && s[3] as int == 0x31 + i - 4
  {
  }

  lemma LptDevices(i: nat)
    requires 13 <= i < 22
    ensures var s := DEVICES[i]; |s| == 4 && s[..3] == "LPT" && s[3] as int == 0x31 + i - 13
  {
  }

  lemma DeviceFound(b: bytes)
    requires IsReserved(b)
    ensures exists i :: 0 <= i < |DEVICES| && IsText(b, DEVICES[i])
  {
    if |b| == 3 {
      assert IsText(b, DEVICES[0]) || IsText(b, DEVICES[1]) || IsText(b, DEVICES[2]) || IsText(b, DEVICES[3]);
    } else {
      assert b[..3] == [b[0], b[1], b[2]];
      var i := b[3] - 0x31 + if b[0] == 0x43 then 4 else 13;
      if b[0] == 0x43 {
        ComDevices(i);
      } else {
        LptDevices(i);
      }
      assert IsText(b, DEVICES[i]);
    }
  }

  /** The bytes of a component: lower-case letters, digits, dot, underscore, dash, and escapes. */
  predicate InAlphabet(b: byte) {
    0x61 <= b <= 0x7a || 0x30 <= b <= 0x39 || b in {0x2e, 0x5f, 0x2d, 0x25} || 0x41 <= b <= 0x46
  }

  predicate AllInAlphabet(c: bytes) { forall i :: 0 <= i < |c| ==> InAlphabet(c[i]) }

  lemma {:induction false} EncodedAlphabet(v: bytes)
    ensures AllInAlphabet(EncodeAll(v))
  {
    if v != [] {
      EncodedAlphabet(v[1..]);
      assert AllInAlphabet(EncodeByte(v[0]));
    }
  }

  /** No other byte ever occurs in a component, whatever the id. */
  lemma ComponentAlphabet(v: bytes, hash: bytes)
    requires IsHash(hash)
    ensures AllInAlphabet(Component(v, hash))
  {
    EncodedAlphabet(v);
    hide EncodeAll, HasReservedStem;
    assert AllInAlphabet(WithoutFinalDot(EncodeAll(v)));
    assert AllInAlphabet(Readable(v));
    assert AllInAlphabet(hash);
  }

  /** Which bytes stand for themselves. */
  predicate StandsForItself(b: byte) {
    0x61 <= b <= 0x7a || 0x30 <= b <= 0x39 || b in {0x2e, 0x5f, 0x2d}
  }

  /** Ids that need no change keep their name: those made of such bytes, of a proper length, that do not end in a dot
      and whose first part is no device name in any spelling. */
  lemma ProperIdsKeepTheirName(v: bytes, hash: bytes)
    requires IsHash(hash) && 1 <= |v| <= 120 && v[|v| - 1] != 0x2e
    requires forall i :: 0 <= i < |v| ==> StandsForItself(v[i])
    requires forall i :: 0 <= i < |DEVICES| ==> !IsText(UpperAll(Stem(v)), DEVICES[i])
    ensures Component(v, hash) == v
  {
    PlainStays(v);
    ReservedAreDevices(UpperAll(Stem(v)));
    KeepsItsName(v);
    hide EncodeAll, Readable;
  }

  /** The first part of a component, in capitals, is never a device name. */
  lemma NoDeviceNames(v: bytes, hash: bytes, i: nat)
    requires IsHash(hash) && i < |DEVICES|
    ensures !IsText(UpperAll(Stem(Component(v, hash))), DEVICES[i])
  {
    ComponentIsSafe(v, hash);
    ReservedAreDevices(UpperAll(Stem(Component(v, hash))));
    hide Component, IsReserved;
  }

  /** The first part is what precedes the first dot, and capitals are those of ASCII. */
  lemma StemAndCapitals(c: bytes, i: nat)
    ensures Stem(c) <= c && DOT !in Stem(c) && (Stem(c) == c || c[|Stem(c)|] == DOT)
    ensures i < |c| ==> UpperAll(c)[i] == if 0x61 <= c[i] <= 0x7a then c[i] - 0x20 else c[i]
  {
  }

  /* ---- ids that are cut ---- */

  const CUT: nat := MAX_CHARS - HASH_CHARS - 1

  /** How an id is cut: a name of more than 120 characters keeps its first 107, then a dash and the hash. */
  lemma LongNamesAreCut(v: bytes, hash: bytes)
    requires IsHash(hash)
    ensures var c := Component(v, hash);
            && |hash| == 12 && |c| <= 120
            && c == if |Readable(v)| <= 120 then Readable(v) else Readable(v)[..107] + [0x2d] + hash
  {
    hide Readable;
  }

  /** Two ids that are both cut share a component exactly when they agree in front of the cut and in their hash. */
  lemma CutComponentsAgree(v: bytes, w: bytes, hash: bytes, hash': bytes)
    requires IsHash(hash) && IsHash(hash') && !Fits(v) && !Fits(w)
    ensures Component(v, hash) == Component(w, hash') <==> Readable(v)[..CUT] == Readable(w)[..CUT] && hash == hash'
  {
    hide Readable;
    var c, d := Component(v, hash), Component(w, hash');
    assert c[..CUT] == Readable(v)[..CUT] && c[CUT + 1..] == hash;
    assert d[..CUT] == Readable(w)[..CUT] && d[CUT + 1..] == hash';
  }

  /** The cut falls inside an escape: the last byte kept, or the one in front of it, opens one. */
  predicate CutsEscape(v: bytes)
    requires !Fits(v)
  {
    Readable(v)[CUT - 1] == PERCENT || Readable(v)[CUT - 2] == PERCENT
  }

  /** A prefix of an encoded id that ends between two of its bytes encodes a prefix of the id. */
  lemma {:induction false} CutEncoding(v: bytes, n: nat) returns (k: nat)
    requires n <= |EncodeAll(v)|
    requires (n >= 1 ==> EncodeAll(v)[n - 1] != PERCENT) && (n >= 2 ==> EncodeAll(v)[n - 2] != PERCENT)
    ensures k <= |v| && EncodeAll(v)[..n] == EncodeAll(v[..k])
    decreases |v|
  {
    if n == 0 {
      k := 0;
      assert v[..0] == [];
    } else {
      FirstIsWhole(v, n);
      hide EncodeByte, EncodeAll;
      var first, rest := EncodeByte(v[0]), EncodeAll(v[1..]);
      var j := CutEncoding(v[1..], n - |first|);
      k := j + 1;
      assert (first + rest)[..n] == first + rest[..n - |first|];
      EncodeFront(v, j);
    }
  }

  /** Such a prefix holds the first byte's encoding, and goes on in the same way. */
  lemma {:induction false} FirstIsWhole(v: bytes, n: nat)
    requires 1 <= n <= |EncodeAll(v)|
    requires EncodeAll(v)[n - 1] != PERCENT && (n >= 2 ==> EncodeAll(v)[n - 2] != PERCENT)
    ensures v != [] && |EncodeByte(v[0])| <= n && EncodeAll(v) == EncodeByte(v[0]) + EncodeAll(v[1..])
    ensures var rest := EncodeAll(v[1..]); var m := n - |EncodeByte(v[0])|;
            m <= |rest| && (m >= 1 ==> rest[m - 1] != PERCENT) && (m >= 2 ==> rest[m - 2] != PERCENT)
  {
    var first := EncodeByte(v[0]);
    assert EncodeAll(v) == first + EncodeAll(v[1..]);
    hide EncodeAll;
    assert |first| == 3 ==> first[0] == PERCENT;
  }

  lemma {:induction false} EncodeFront(v: bytes, j: nat)
    requires j < |v|
    ensures EncodeAll(v[..j + 1]) == EncodeByte(v[0]) + EncodeAll(v[1..][..j])
  {
    assert v[..j + 1][0] == v[0] && v[..j + 1][1..] == v[1..][..j];
    hide EncodeByte;
  }

  /** In an encoded id no escape is cut short, and none is continued by a dash. */
  lemma {:induction false} EscapesAreWhole(v: bytes, i: nat)
    requires i < |EncodeAll(v)| && EncodeAll(v)[i] == PERCENT
    ensures i + 2 < |EncodeAll(v)| && EncodeAll(v)[i + 1] != DASH && EncodeAll(v)[i + 2] != DASH
    decreases |v|
  {
    var w := |EncodeByte(v[0])|;
    var rest := EncodeAll(v[1..]);
    assert EncodeAll(v) == EncodeByte(v[0]) + rest;
    if i >= w {
      assert forall j :: w <= j < |EncodeAll(v)| ==> EncodeAll(v)[j] == rest[j - w];
      EscapesAreWhole(v[1..], i - w);
    } else {
      assert i == 0 && w == 3;
    }
  }

  /** The same of a name whose last dot has been replaced. */
  lemma {:induction false} EscapesAreWholeInBody(v: bytes, i: nat)
    requires var c := WithoutFinalDot(EncodeAll(v)); i + 2 < |c| && c[i] == PERCENT
    ensures var c := WithoutFinalDot(EncodeAll(v)); c[i + 1] != DASH && c[i + 2] != DASH
  {
    hide EncodeAll;
    var e, c := EncodeAll(v), WithoutFinalDot(EncodeAll(v));
    assert forall j :: 0 <= j < |e| - 1 ==> c[j] == e[j];
    if i < |e| && e[i] == PERCENT {
      EscapesAreWhole(v, i);
    }
  }

  /** Whether the readable name carries the mark, and what stands behind it. */
  function Mark(v: bytes): nat { if HasReservedStem(WithoutFinalDot(EncodeAll(v))) then 1 else 0 }

  lemma {:induction false} ReadableBody(v: bytes)
    requires v != []
    ensures var c := WithoutFinalDot(EncodeAll(v));
            c != [] && Readable(v) == (if Mark(v) == 1 then [PERCENT] + c else c)
  {
    StartsPlainOrEscaped(v);
    hide EncodeAll, HasReservedStem, WithoutFinalDot;
  }

  lemma EscapesAreWholeInName(v: bytes, i: nat)
    requires v != [] && 1 <= i && i + 2 < |Readable(v)| && Readable(v)[i] == PERCENT
    ensures Readable(v)[i + 1] != DASH && Readable(v)[i + 2] != DASH
  {
    hide EncodeAll, Readable, Mark, WithoutFinalDot;
    ReadableBody(v);
    var c := WithoutFinalDot(EncodeAll(v));
    if Mark(v) == 1 {
      assert ([PERCENT] + c)[i] == c[i - 1];
      EscapesAreWholeInBody(v, i - 1);
    } else {
      EscapesAreWholeInBody(v, i);
    }
  }

  /** No id has a cut escape in its name: the hash cannot continue it. */
  lemma CutEscapeIsNoName(v: bytes, w: bytes, hash: bytes)
    requires IsHash(hash) && !Fits(w) && CutsEscape(w)
    ensures Readable(v) != Component(w, hash)
  {
    hide Readable;
    var c := Component(w, hash);
    assert c[CUT] == DASH && c[CUT - 1] == Readable(w)[CUT - 1] && c[CUT - 2] == Readable(w)[CUT - 2];
    if Readable(v) == c {
      NameOfNothing(v);
      if c[CUT - 1] == PERCENT {
        EscapesAreWholeInName(v, CUT - 1);
      } else {
        EscapesAreWholeInName(v, CUT - 2);
      }
    }
  }

  lemma NameOfNothing(v: bytes)
    ensures v == [] ==> Readable(v) == EMPTY_NAME
  {
  }

  /** A clean cut: the component of the cut id is the name of the id made of the bytes in front of the cut,
      a dash and the hash. */
  lemma CleanCutIsName(w: bytes, hash: bytes) returns (v: bytes)
    requires IsHash(hash) && !Fits(w) && !CutsEscape(w)
    ensures Readable(v) == Component(w, hash)
    ensures exists k :: 0 <= k <= |w| && v == w[..k] + [DASH] + hash
  {
    hide Readable, EncodeAll, HasReservedStem, WithoutFinalDot;
    LongNames(w);
    ReadableBody(w);
    var m := Mark(w);
    var n := CUT - m;
    var e, body, tail := EncodeAll(w), WithoutFinalDot(EncodeAll(w)), [DASH] + hash;
    BodyIsEncoding(w, n);
    assert forall i :: 0 <= i < n ==> Readable(w)[i + m] == body[i] == e[i];
    var k := CutEncoding(w, n);
    v := w[..k] + tail;
    assert w[..k] + [DASH] + hash == v;
    PlainTail(hash);
    EncodeAppend(w[..k], tail);
    assert EncodeAll(v) == body[..n] + tail;
    TailEnds(body[..n], hash);
    MarkStays(w, n, tail);
    NamesAgree(w, v, n, tail);
    assert Readable(w)[..CUT] + tail == Readable(w)[..CUT] + [DASH] + hash;
    assert Readable(w)[..CUT] == (if m == 1 then [PERCENT] + body[..n] else body[..n]);
  }

  lemma LongNames(w: bytes)
    requires !Fits(w)
    ensures w != []
  {
    NameOfNothing(w);
    hide Readable;
  }

  /** Well in front of its end, the body of a name is the encoding. */
  lemma {:induction false} BodyIsEncoding(w: bytes, n: nat)
    requires n + 3 <= |WithoutFinalDot(EncodeAll(w))|
    ensures n <= |EncodeAll(w)| && WithoutFinalDot(EncodeAll(w))[..n] == EncodeAll(w)[..n]
  {
    hide EncodeAll;
  }

  lemma {:induction false} PlainTail(hash: bytes)
    requires IsHash(hash)
    ensures EncodeAll([DASH] + hash) == [DASH] + hash
  {
    assert AllPlain([DASH] + hash);
    PlainStays([DASH] + hash);
  }

  lemma TailEnds(c: bytes, hash: bytes)
    requires IsHash(hash)
    ensures WithoutFinalDot(c + ([DASH] + hash)) == c + ([DASH] + hash)
  {
    var d := c + ([DASH] + hash);
    assert d[|d| - 1] == hash[|hash| - 1];
  }

  /** A stem that is reserved ends long before the cut, and one that is not stays free. */
  lemma {:induction false} MarkStays(w: bytes, n: nat, tail: bytes)
    requires var c := WithoutFinalDot(EncodeAll(w)); 5 <= n <= |c| && |c| > 5
    ensures var c := WithoutFinalDot(EncodeAll(w)); HasReservedStem(c[..n] + tail) <==> Mark(w) == 1
  {
    hide EncodeAll, WithoutFinalDot;
    var c := WithoutFinalDot(EncodeAll(w));
    if HasReservedStem(c) {
      ReservedStemStays(c, n, tail);
    } else {
      CutStemIsFree(c, n, tail);
    }
  }

  lemma ReservedStemStays(c: bytes, n: nat, tail: bytes)
    requires HasReservedStem(c) && 5 <= n <= |c| && |c| > 5
    ensures HasReservedStem(c[..n] + tail)
  {
    var m := c[..n] + tail;
    assert forall k :: 0 <= k < n ==> m[k] == c[k];
    assert |Stem(c)| <= 4 by {
      if |Stem(c)| > 4 {
        LongStemIsFree(c);
      }
    }
    var i := IndexIn(c, 0, {DOT});
    assert m[i.value] == c[i.value];
    assert IndexIn(m, 0, {DOT}) == i;
    assert m[..i.value] == c[..i.value];
  }

  lemma {:induction false} NamesAgree(w: bytes, v: bytes, n: nat, tail: bytes)
    requires n <= |WithoutFinalDot(EncodeAll(w))|
    requires tail != [] && WithoutFinalDot(EncodeAll(v)) == WithoutFinalDot(EncodeAll(w))[..n] + tail
    requires HasReservedStem(WithoutFinalDot(EncodeAll(v))) <==> Mark(w) == 1
    ensures var c := WithoutFinalDot(EncodeAll(w))[..n];
            Readable(v) == if Mark(w) == 1 then [PERCENT] + c + tail else c + tail
  {
    hide EncodeAll, HasReservedStem, WithoutFinalDot, Mark;
    var c := WithoutFinalDot(EncodeAll(w))[..n];
    assert [PERCENT] + (c + tail) == [PERCENT] + c + tail;
  }

  /** Injectivity across the cut, with its exact condition: the component of a cut id is the component of an id
      that needs no cut if and only if the cut does not fall inside an escape. */
  lemma CutNameIsShared(w: bytes, hash: bytes, hash': bytes)
    requires IsHash(hash) && IsHash(hash') && !Fits(w)
    ensures (exists v :: Fits(v) && Component(v, hash') == Component(w, hash)) <==> !CutsEscape(w)
  {
    hide Readable, EncodeAll, CutsEscape;
    if CutsEscape(w) {
      forall v | Fits(v)
        ensures Component(v, hash') != Component(w, hash)
      {
        CutEscapeIsNoName(v, w, hash);
      }
    } else {
      var v := CleanCutIsName(w, hash);
      ComponentIsSafe(w, hash);
      assert Fits(v) && Component(v, hash') == Component(w, hash);
    }
  }

  predicate AllPlain(v: bytes) { forall i :: 0 <= i < |v| ==> IsPlain(v[i]) }

  lemma {:induction false} PlainStays(v: bytes)
    requires AllPlain(v)
    ensures EncodeAll(v) == v
  {
    if v != [] {
      PlainStays(v[1..]);
      assert [v[0]] + v[1..] == v;
    }
  }

  /* ---- two plugin ids with one component ---- */

  const MAX_ID_CHARS: nat := 120

  /** `normalize_plugin_id` accepts the id as it stands. */
  predicate IsPluginId(v: bytes) {
    && 1 <= |v| <= MAX_ID_CHARS
    && forall i :: 0 <= i < |v| ==>
         IsLower(v[i]) || 0x41 <= v[i] <= 0x5a || IsDigit(v[i]) || v[i] in {0x3a, DOT, 0x5f, DASH}
  }

  /** A hundred and nineteen times `a`, then a dot. */
  const LONG_ID: bytes := seq(119, i => 0x61) + [DOT]

  /** Both are ids that plugins may have: the long one, and the one that its component spells. */
  lemma SharedComponentExample(hash: bytes, hash': bytes) returns (v: bytes)
    requires IsHash(hash) && IsHash(hash')
    ensures IsPluginId(LONG_ID) && IsPluginId(v) && v != LONG_ID
    ensures !Fits(LONG_ID) && Fits(v) && Component(v, hash') == Component(LONG_ID, hash)
  {
    var letters := LONG_ID[..119];
    assert LONG_ID == letters + [DOT] && AllPlain(letters) && AllPlain(LONG_ID);
    PlainStays(LONG_ID);
    var e := WithoutFinalDot(EncodeAll(LONG_ID));
    assert e == letters + ENCODED_DOT;
    LettersAreFree(e);
    hide EncodeAll, HasReservedStem, WithoutFinalDot;
    assert Readable(LONG_ID) == e;
    assert e[CUT - 1] == letters[CUT - 1] && e[CUT - 2] == letters[CUT - 2];
    v := letters[..CUT] + [DASH] + hash;
    LongIdIsCut(hash, hash', v);
  }

  lemma LettersAreFree(c: bytes)
    requires |c| >= 119 && forall i :: 0 <= i < 119 ==> c[i] == 0x61
    ensures !HasReservedStem(c)
  {
    LongStemIsFree(c);
  }

  lemma LongIdIsCut(hash: bytes, hash': bytes, v: bytes)
    requires IsHash(hash) && IsHash(hash') && |LONG_ID| == 120
    requires v == LONG_ID[..CUT] + [DASH] + hash && Readable(LONG_ID) == LONG_ID[..119] + ENCODED_DOT
    ensures IsPluginId(LONG_ID) && IsPluginId(v) && v != LONG_ID
    ensures !Fits(LONG_ID) && Fits(v) && Component(v, hash') == Component(LONG_ID, hash)
  {
    hide Readable, HasReservedStem, EncodeAll;
    assert forall i :: 0 <= i < CUT ==> v[i] == 0x61;
    assert v[CUT] == DASH && forall i :: CUT < i < |v| ==> v[i] == hash[i - CUT - 1];
    assert Component(LONG_ID, hash) == v by {
      assert Readable(LONG_ID)[..CUT] == LONG_ID[..CUT];
    }
    ComponentIsSafe(LONG_ID, hash);
    PlainStays(v);
    KeepsItsName(v);
  }

  lemma {:induction false} KeepsItsName(c: bytes)
    requires c != [] && EncodeAll(c) == c && c[|c| - 1] != DOT && !HasReservedStem(c)
    ensures Readable(c) == c
  {
    hide HasReservedStem, EncodeAll;
  }
}
