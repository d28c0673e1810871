/**
 * Byte strings. A Rust `String` is a UTF-8 byte sequence and the source compares,
 * lower-cases, orders and slices its strings byte by byte, so every string of the
 * model is a `Str`, a sequence of bytes.
 */
module Bytes {

  newtype byte = b: int | 0 <= b < 256

  type Str = seq<byte>

  /** The bytes of a literal written with characters below U+0100 (used for ASCII text only). */
  function Ascii(s: string): (r: Str)
    ensures |r| == |s|
  {
    seq(|s|, i requires 0 <= i < |s| => (s[i] as int % 256) as byte)
  }

  const NUL: byte := 0x00
  const NEWLINE: byte := 0x0A
  const SPACE: byte := 0x20
  const BANG: byte := 0x21
  const QUOTE: byte := 0x27
  const DOT: byte := 0x2E
  const STAR: byte := 0x2A
  const SLASH: byte := 0x2F
  const COLON: byte := 0x3A
  const LESS: byte := 0x3C
  const GREATER: byte := 0x3E
  const BACKSLASH: byte := 0x5C

  predicate StartsWith(s: Str, prefix: Str) {
    |prefix| <= |s| && s[..|prefix|] == prefix
  }

  predicate EndsWith(s: Str, suffix: Str) {
    |suffix| <= |s| && s[|s| - |suffix|..] == suffix
  }

  /** `u8::to_ascii_lowercase`: only `A`..`Z` change. */
  function LowerByte(b: byte): (r: byte)
    ensures 0x41 <= b <= 0x5A ==> r as int == b as int + 0x20
    ensures !(0x41 <= b <= 0x5A) ==> r == b
  {
    if 0x41 <= b <= 0x5A then b + 0x20 else b
  }

  /** `str::to_ascii_lowercase`. */
  function Lower(s: Str): (r: Str)
    ensures |r| == |s|
  {
    seq(|s|, i requires 0 <= i < |s| => LowerByte(s[i]))
  }

  /** `u8::is_ascii_graphic`: `!` through `~`; space is not graphic. */
  predicate IsGraphic(b: byte) {
    0x21 <= b <= 0x7E
  }

  /** The ordering of `Ord` on byte strings (and on `String`): lexicographic by byte. */
  predicate LexLeq(a: Str, b: Str) {
    if a == [] then true
    else if b == [] then false
    else if a[0] != b[0] then a[0] < b[0]
    else LexLeq(a[1..], b[1..])
  }

  lemma {:induction false} LexLeqReflexive(a: Str)
    ensures LexLeq(a, a)
  {
    if a != [] {
      LexLeqReflexive(a[1..]);
    }
  }

  lemma {:induction false} LexLeqTotal(a: Str, b: Str)
    ensures LexLeq(a, b) || LexLeq(b, a)
  {
    if a != [] && b != [] && a[0] == b[0] {
      LexLeqTotal(a[1..], b[1..]);
    }
  }

  lemma {:induction false} LexLeqTransitive(a: Str, b: Str, c: Str)
    requires LexLeq(a, b) && LexLeq(b, c)
    ensures LexLeq(a, c)
  {
    if a != [] && b != [] && c != [] && a[0] == b[0] && b[0] == c[0] {
      LexLeqTransitive(a[1..], b[1..], c[1..]);
    }
  }

  // ---------------------------------------------------------------------------
  // UTF-8 well-formedness, the test behind `String::from_utf8` and `str::from_utf8`
  // (the byte ranges of RFC 3629, section 4, which Rust's decoder accepts exactly).

  predicate IsContinuation(b: byte) {
    0x80 <= b <= 0xBF
  }

  /** Length of the well-formed UTF-8 sequence that starts `s`, or 0 when `s` starts with none. */
  function LeadLength(s: Str): (n: nat)
    requires |s| > 0
    ensures n <= 4 && n <= |s|
    ensures s[0] < 0x80 <==> n == 1
  {
    var b := s[0];
    if b < 0x80 then 1
    else if 0xC2 <= b <= 0xDF then
      if |s| >= 2 && IsContinuation(s[1]) then 2 else 0
    else if 0xE0 <= b <= 0xEF then
      var lo: byte := if b == 0xE0 then 0xA0 else 0x80;
      var hi: byte := if b == 0xED then 0x9F else 0xBF;
      if |s| >= 3 && lo <= s[1] <= hi && IsContinuation(s[2]) then 3 else 0
    else if 0xF0 <= b <= 0xF4 then
      var lo: byte := if b == 0xF0 then 0x90 else 0x80;
      var hi: byte := if b == 0xF4 then 0x8F else 0xBF;
      if |s| >= 4 && lo <= s[1] <= hi && IsContinuation(s[2]) && IsContinuation(s[3]) then 4 else 0
    else 0
  }

  predicate ValidUtf8(s: Str)
    decreases |s|
  {
    s == [] || (LeadLength(s) > 0 && ValidUtf8(s[LeadLength(s)..]))
  }
}
