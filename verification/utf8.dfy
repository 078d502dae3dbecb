/** Well-formed UTF-8 (the Unicode Standard, table 3-7; RFC 3629 section 4), the
    condition `std::str::from_utf8` checks before the original resolver text is
    logged. */
module Utf8 {

  predicate InRange(b: bv8, lo: bv8, hi: bv8) {
    lo <= b <= hi
  }

  predicate Cont(b: bv8) {
    InRange(b, 0x80, 0xBF)
  }

  /** Length of the well-formed sequence that starts `s`, or 0 if none does. */
  function LeadLength(s: seq<bv8>): (n: nat)
    requires 0 < |s|
    ensures n <= 4 && n <= |s|
  {
    var b := s[0];
    if b <= 0x7F then 1
    else if InRange(b, 0xC2, 0xDF) && |s| >= 2 && Cont(s[1]) then 2
    else if b == 0xE0 && |s| >= 3 && InRange(s[1], 0xA0, 0xBF) && Cont(s[2]) then 3
    else if (InRange(b, 0xE1, 0xEC) || InRange(b, 0xEE, 0xEF)) && |s| >= 3 && Cont(s[1]) && Cont(s[2]) then 3
    else if b == 0xED && |s| >= 3 && InRange(s[1], 0x80, 0x9F) && Cont(s[2]) then 3
    else if b == 0xF0 && |s| >= 4 && InRange(s[1], 0x90, 0xBF) && Cont(s[2]) && Cont(s[3]) then 4
    else if InRange(b, 0xF1, 0xF3) && |s| >= 4 && Cont(s[1]) && Cont(s[2]) && Cont(s[3]) then 4
    else if b == 0xF4 && |s| >= 4 && InRange(s[1], 0x80, 0x8F) && Cont(s[2]) && Cont(s[3]) then 4
    else 0
  }

  /** The bytes are a concatenation of well-formed UTF-8 sequences. */
  predicate ValidUtf8(s: seq<bv8>)
    decreases |s|
  {
    s == [] || (LeadLength(s) > 0 && ValidUtf8(s[LeadLength(s)..]))
  }

  predicate IsAscii(s: seq<bv8>) {
    forall i | 0 <= i < |s| :: s[i] <= 0x7F
  }

  /** Every ASCII byte string is valid UTF-8. */
  lemma {:induction false} AsciiIsValid(s: seq<bv8>)
    requires IsAscii(s)
    ensures ValidUtf8(s)
  {
    if s != [] {
      assert IsAscii(s[1..]) by {
        forall i | 0 <= i < |s[1..]| ensures s[1..][i] <= 0x7F { assert s[1..][i] == s[i + 1]; }
      }
      AsciiIsValid(s[1..]);
    }
  }

  /** A byte that can never occur in UTF-8 (0xFF, say) makes the text invalid. */
  lemma {:induction false} InvalidByteRejected(s: seq<bv8>, i: nat)
    requires i < |s| && InRange(s[i], 0xF5, 0xFF)
    ensures !ValidUtf8(s)
    decreases |s|
  {
    if ValidUtf8(s) {
      var n := LeadLength(s);
      if i < n {
        assert false;
      } else {
        assert s[n..][i - n] == s[i];
        InvalidByteRejected(s[n..], i - n);
      }
    }
  }
}
