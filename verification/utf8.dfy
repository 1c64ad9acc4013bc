/**
 Whether a byte string is well-formed UTF-8, following the byte-sequence
 syntax of section 4 of RFC 3629 (which is also what a strict decoder such
 as Python's `bytes.decode('utf-8')` accepts: no overlong forms, no
 surrogates, nothing above U+10FFFF). The program only ever compares decoded
 text with ASCII constants or prints it, so the one thing about decoding that
 changes its behaviour is whether decoding raises.
 */
module Utf8 {
  import opened Bytes

  /** A continuation byte, 10xxxxxx. */
  predicate IsTail(b: byte) {
    0x80 <= b <= 0xBF
  }

  /**
   Length of the well-formed character at the start of s, or 0 when s does
   not start with one.
   */
  function LeadLength(s: seq<byte>): (n: nat)
    ensures n <= |s| && n <= 4
    ensures n > 0 ==> s[0] <= 0x7F || 0xC2 <= s[0] <= 0xF4
    ensures |s| > 0 && s[0] <= 0x7F ==> n == 1
  {
    if |s| == 0 then 0
    else
      var b := s[0];
      if b <= 0x7F then 1
      else if 0xC2 <= b <= 0xDF then
        (if |s| >= 2 && IsTail(s[1]) then 2 else 0)
      else if b == 0xE0 then
        (if |s| >= 3 && 0xA0 <= s[1] <= 0xBF && IsTail(s[2]) then 3 else 0)
      else if 0xE1 <= b <= 0xEC || 0xEE <= b <= 0xEF then
        (if |s| >= 3 && IsTail(s[1]) && IsTail(s[2]) then 3 else 0)
      else if b == 0xED then
        (if |s| >= 3 && 0x80 <= s[1] <= 0x9F && IsTail(s[2]) then 3 else 0)
      else if b == 0xF0 then
        (if |s| >= 4 && 0x90 <= s[1] <= 0xBF && IsTail(s[2]) && IsTail(s[3]) then 4 else 0)
      else if 0xF1 <= b <= 0xF3 then
        (if |s| >= 4 && IsTail(s[1]) && IsTail(s[2]) && IsTail(s[3]) then 4 else 0)
      else if b == 0xF4 then
        (if |s| >= 4 && 0x80 <= s[1] <= 0x8F && IsTail(s[2]) && IsTail(s[3]) then 4 else 0)
      else 0
  }

  /** s splits into a sequence of well-formed characters. */
  predicate WellFormed(s: seq<byte>)
    decreases |s|
  {
    |s| == 0 || (LeadLength(s) > 0 && WellFormed(s[LeadLength(s)..]))
  }

  predicate IsAscii(s: seq<byte>) {
    forall i | 0 <= i < |s| :: s[i] <= 0x7F
  }

  /** Every ASCII string, zero bytes included, decodes. */
  lemma {:induction false} AsciiIsWellFormed(s: seq<byte>)
    requires IsAscii(s)
    ensures WellFormed(s)
    decreases |s|
  {
    if |s| > 0 {
      assert LeadLength(s) == 1;
      AsciiIsWellFormed(s[1..]);
    }
  }

  /** A continuation byte cannot start a string that decodes. */
  lemma TailCannotLead(s: seq<byte>)
    requires |s| > 0 && IsTail(s[0])
    ensures !WellFormed(s)
  {
  }
}
