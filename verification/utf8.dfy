/** Well-formedness of UTF-8 (section 4 of RFC 3629), as the standard library validator decides it. */
module Utf8 {
  import opened Options
  import opened Bytes

  /** What the start of a non-empty byte string holds: one whole character, the beginning
      of one that stops too early, or something no continuation can repair. */
  datatype Head = Whole(len: nat) | Truncated | Malformed

  predicate IsContinuation(b: byte) { 0x80 <= b <= 0xbf }

  /** The number of bytes a well-formed character with this lead byte has, 0 if there is none. */
  function LeadLength(lead: byte): (n: nat)
    ensures n <= 4
  {
    if lead < 0x80 then 1
    else if 0xc2 <= lead <= 0xdf then 2
    else if 0xe0 <= lead <= 0xef then 3
    else if 0xf0 <= lead <= 0xf4 then 4
    else 0
  }

  /** Second bytes are restricted after four lead bytes: no overlong forms, surrogates or values past U+10FFFF. */
  predicate SecondByteFits(lead: byte, b: byte) {
    IsContinuation(b)
    && (lead == 0xe0 ==> 0xa0 <= b)
    && (lead == 0xed ==> b <= 0x9f)
    && (lead == 0xf0 ==> 0x90 <= b)
    && (lead == 0xf4 ==> b <= 0x8f)
  }

  function ReadHead(s: bytes): (h: Head)
    requires s != []
    ensures h.Whole? ==> 1 <= h.len <= 4 && h.len <= |s| && h.len == LeadLength(s[0])
    ensures h.Truncated? ==> |s| < LeadLength(s[0])
  {
    var n := LeadLength(s[0]);
    if n == 0 then Malformed
    else if n == 1 then Whole(1)
    else if |s| == 1 then Truncated
    else if !SecondByteFits(s[0], s[1]) then Malformed
    else if n == 2 then Whole(2)
    else if |s| == 2 then Truncated
    else if !IsContinuation(s[2]) then Malformed
    else if n == 3 then Whole(3)
    else if |s| == 3 then Truncated
    else if !IsContinuation(s[3]) then Malformed
    else Whole(4)
  }

  /** `str::from_utf8(s).is_ok()` */
  predicate IsUtf8(s: bytes) {
    s == [] || (ReadHead(s).Whole? && IsUtf8(s[ReadHead(s).len..]))
  }

  /** One whole character and nothing else. */
  predicate IsChar(s: bytes) {
    s != [] && ReadHead(s) == Whole(|s|)
  }

  /** `starts_with_incomplete_utf8_char`: the validator fails at offset 0 for lack of input. */
  predicate IsTruncatedChar(s: bytes) {
    s != [] && ReadHead(s).Truncated?
  }

  /** `utf8_char_width`: the width that the high bits of the lead byte announce. */
  function AnnouncedWidth(lead: byte): Option<nat> {
    if lead < 0x80 then Some(1)
    else if 0xc0 <= lead <= 0xdf then Some(2)
    else if 0xe0 <= lead <= 0xef then Some(3)
    else if 0xf0 <= lead <= 0xf7 then Some(4)
    else None
  }

  /** `first_complete_utf8_char_len` */
  function FirstCharLen(s: bytes): (r: Option<nat>)
    ensures r.Some? ==> 1 <= r.value <= |s|
  {
    if s == [] then None
    else
      match AnnouncedWidth(s[0])
      case None => None
      case Some(w) => if |s| < w || !IsUtf8(s[..w]) then None else Some(w)
  }

  lemma ReadHeadPrefix(s: bytes, n: nat)
    requires s != [] && 1 <= n <= |s|
    ensures ReadHead(s) == Whole(n) ==> ReadHead(s[..n]) == Whole(n)
    ensures ReadHead(s[..n]).Whole? ==> ReadHead(s) == ReadHead(s[..n])
    ensures ReadHead(s).Whole? && n < ReadHead(s).len ==> ReadHead(s[..n]).Truncated?
  {
  }

  /** The width test plus validation of that many bytes finds a character exactly
      when the validator reads one at the front. */
  lemma FirstCharLenIsHead(s: bytes)
    requires s != []
    ensures FirstCharLen(s) == if ReadHead(s).Whole? then Some(ReadHead(s).len) else None
  {
    match AnnouncedWidth(s[0])
    case None =>
    case Some(w) =>
      if w <= |s| {
        var t := s[..w];
        ReadHeadPrefix(s, w);
        if IsUtf8(t) {
          assert ReadHead(t).len == LeadLength(s[0]) == w;
        } else if ReadHead(s).Whole? {
          assert t[w..] == [];
          assert IsUtf8(t[w..]);
          assert false;
        }
      }
  }

  lemma FirstCharLenStable(s: bytes, c: bytes)
    requires FirstCharLen(s).Some?
    ensures FirstCharLen(s + c) == FirstCharLen(s)
  {
    var w := FirstCharLen(s).value;
    assert (s + c)[..w] == s[..w];
  }

  /* ---- characters as numbers ---- */

  /** A Unicode scalar value: any code point but a surrogate. */
  predicate IsScalar(n: nat) { n <= 0x10ffff && !(0xd800 <= n <= 0xdfff) }

  /** The bytes of a character, as section 3 of RFC 3629 builds them: six bits in each byte behind the first. */
  function Encode(n: nat): bytes
    requires IsScalar(n)
  {
    var n1, n2, n3 := n / 0x40, n / 0x40 / 0x40, n / 0x40 / 0x40 / 0x40;
    if n < 0x80 then [n]
    else if n < 0x800 then [0xc0 + n1, 0x80 + n % 0x40]
    else if n < 0x10000 then [0xe0 + n2, 0x80 + n1 % 0x40, 0x80 + n % 0x40]
    else [0xf0 + n3, 0x80 + n2 % 0x40, 0x80 + n1 % 0x40, 0x80 + n % 0x40]
  }

  /** The bits that a byte behind the first adds. */
  function Next(n: nat, b: byte): nat { 0x40 * n + if b < 0x80 then 0 else b - 0x80 }

  /** The bits of a first byte. */
  function First(b: byte): nat {
    if b < 0xc0 then b else if b < 0xe0 then b - 0xc0 else if b < 0xf0 then b - 0xe0 else b - 0xf0
  }

  /** The number that a character stands for. */
  function ScalarOf(s: bytes): nat
    requires IsChar(s)
  {
    if |s| == 1 then First(s[0])
    else if |s| == 2 then Next(First(s[0]), s[1])
    else if |s| == 3 then Next(Next(First(s[0]), s[1]), s[2])
    else Next(Next(Next(First(s[0]), s[1]), s[2]), s[3])
  }

  lemma NextReads(n: nat, b: byte)
    requires IsContinuation(b)
    ensures Next(n, b) / 0x40 == n && Next(n, b) % 0x40 == b - 0x80
  {
  }

  lemma NextWrites(n: nat)
    ensures Next(n / 0x40, 0x80 + n % 0x40) == n
  {
  }

  /** Every scalar value is encoded as one character, and read back. */
  lemma EncodeIsChar(n: nat)
    requires IsScalar(n)
    ensures IsChar(Encode(n)) && ScalarOf(Encode(n)) == n
  {
    NextWrites(n);
    NextWrites(n / 0x40);
    NextWrites(n / 0x40 / 0x40);
    hide Next;
  }

  /** And nothing else is a character: what the validator takes as one is the encoding of a scalar value, in
      its shortest form, and no surrogate. */
  lemma CharIsEncoded(s: bytes)
    requires IsChar(s)
    ensures IsScalar(ScalarOf(s)) && Encode(ScalarOf(s)) == s
  {
    var n0 := First(s[0]);
    if |s| > 1 {
      var n1 := Next(n0, s[1]);
      NextReads(n0, s[1]);
      if |s| > 2 {
        var n2 := Next(n1, s[2]);
        NextReads(n1, s[2]);
        if |s| > 3 {
          NextReads(n2, s[3]);
        }
      }
    }
  }
}
