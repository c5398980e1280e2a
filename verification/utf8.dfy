/** The byte strings that Rust's `str::from_utf8` accepts: well-formed UTF-8
    (Table 3-7 of the Unicode Standard, chapter 3), i.e. no overlong forms,
    no surrogates, nothing above U+10FFFF. */
module Utf8 {
  import opened Common

  predicate IsContinuation(b: byte) {
    0x80 <= b <= 0xBF
  }

  /** Whether `s` is a whole number of well-formed UTF-8 sequences. */
  predicate IsUtf8(s: Bytes): (ok: bool)
    ensures s == [] ==> ok
    // no well-formed string starts with a continuation byte, an overlong
    // lead byte (C0, C1) or a byte above F4
    ensures ok && s != [] ==> !IsContinuation(s[0]) && s[0] != 0xC0 && s[0] != 0xC1 && s[0] <= 0xF4
    // nor ends in the middle of a multi-byte sequence
    ensures ok && s != [] ==> s[|s| - 1] <= 0x7F || IsContinuation(s[|s| - 1])
    decreases |s|
  {
    if s == [] then true
    else if s[0] <= 0x7F then IsUtf8(s[1..])
    else if 0xC2 <= s[0] <= 0xDF then
      |s| >= 2 && IsContinuation(s[1]) && IsUtf8(s[2..])
    else if 0xE0 <= s[0] <= 0xEF then
      && |s| >= 3
      && (if s[0] == 0xE0 then 0xA0 <= s[1] <= 0xBF
          else if s[0] == 0xED then 0x80 <= s[1] <= 0x9F
          else IsContinuation(s[1]))
      && IsContinuation(s[2])
      && IsUtf8(s[3..])
    else if 0xF0 <= s[0] <= 0xF4 then
      && |s| >= 4
      && (if s[0] == 0xF0 then 0x90 <= s[1] <= 0xBF
          else if s[0] == 0xF4 then 0x80 <= s[1] <= 0x8F
          else IsContinuation(s[1]))
      && IsContinuation(s[2])
      && IsContinuation(s[3])
      && IsUtf8(s[4..])
    else false
  }

  /** Every ASCII byte string is UTF-8, so every ASCII key can be sent. */
  lemma {:induction false} AsciiIsUtf8(s: Bytes)
    requires forall i | 0 <= i < |s| :: s[i] <= 0x7F
    ensures IsUtf8(s)
  {
    if s != [] {
      AsciiIsUtf8(s[1..]);
    }
  }
}
