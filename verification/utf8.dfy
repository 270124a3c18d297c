/**
 * Python strings as the WAL script sees them: through their UTF-8 bytes.
 *
 * A string is represented by its encoding, so `bytes(s, "utf-8")` is the
 * representation itself. `len(s)` counts code points, and decoding a byte
 * string succeeds exactly when it is well-formed UTF-8 (Table 3-7 of the
 * Unicode Standard, which is what Python's strict "utf-8" codec accepts).
 */
module Utf8 {
  import opened Wrappers
  import opened Octets

  /** A Python `str`, held as its UTF-8 encoding; a real one is `WellFormed`. */
  type PyStr = Bytes

  predicate InRange(b: Byte, lo: int, hi: int) {
    lo <= b <= hi
  }

  predicate IsContinuation(b: Byte) {
    InRange(b, 0x80, 0xBF)
  }

  /**
   * The length of the well-formed code point sequence at the head of `s`
   * (Table 3-7), or 0 when the head is ill-formed.
   */
  function LeadLength(s: Bytes): (n: nat)
    requires |s| > 0
    ensures n <= |s|
  {
    var b0 := s[0];
    if b0 < 0x80 then 1
    else if InRange(b0, 0xC2, 0xDF) then
      if |s| >= 2 && IsContinuation(s[1]) then 2 else 0
    else if InRange(b0, 0xE0, 0xEF) then
      var lo := if b0 == 0xE0 then 0xA0 else 0x80;
      var hi := if b0 == 0xED then 0x9F else 0xBF;
      if |s| >= 3 && InRange(s[1], lo, hi) && IsContinuation(s[2]) then 3 else 0
    else if InRange(b0, 0xF0, 0xF4) then
      var lo := if b0 == 0xF0 then 0x90 else 0x80;
      var hi := if b0 == 0xF4 then 0x8F else 0xBF;
      if |s| >= 4 && InRange(s[1], lo, hi) && IsContinuation(s[2]) && IsContinuation(s[3]) then 4 else 0
    else 0
  }

  /** A sequence of Table 3-7 is one lead byte followed by continuation bytes, at most four in all. */
  lemma LeadLengthShape(s: Bytes)
    requires |s| > 0
    ensures LeadLength(s) <= 4
    ensures LeadLength(s) > 0 ==> !IsContinuation(s[0])
    ensures LeadLength(s) > 0 ==> forall i :: 1 <= i < LeadLength(s) ==> IsContinuation(s[i])
    ensures LeadLength(s) == 1 <==> s[0] < 0x80
  {
  }

  /** `s` splits into well-formed code point sequences. */
  predicate WellFormed(s: Bytes)
    decreases |s|
  {
    |s| == 0 || (LeadLength(s) > 0 && WellFormed(s[LeadLength(s)..]))
  }

  /** The number of code points of a well-formed string: one per sequence of Table 3-7. */
  function CodePoints(s: Bytes): nat
    requires WellFormed(s)
    decreases |s|
  {
    if |s| == 0 then 0 else 1 + CodePoints(s[LeadLength(s)..])
  }

  predicate IsAscii(s: Bytes) {
    forall i :: 0 <= i < |s| ==> s[i] < 0x80
  }

  predicate HasNoContinuation(s: Bytes) {
    forall i :: 0 <= i < |s| ==> !IsContinuation(s[i])
  }

  /**
   * Python's `len(s)`: every code point has exactly one byte that is not a
   * continuation byte, so `len` counts those.
   */
  function Length(s: PyStr): (n: nat)
    ensures n <= |s|
  {
    if |s| == 0 then 0 else (if IsContinuation(s[0]) then 0 else 1) + Length(s[1..])
  }

  /** `len(s)` reaches the byte count exactly when no byte is a continuation byte. */
  lemma {:induction false} LengthIsByteCountIffNoContinuation(s: PyStr)
    ensures Length(s) == |s| <==> HasNoContinuation(s)
  {
    if |s| > 0 {
      LengthIsByteCountIffNoContinuation(s[1..]);
      assert forall i :: 0 <= i < |s[1..]| ==> s[1..][i] == s[i + 1];
      if !IsContinuation(s[0]) && HasNoContinuation(s[1..]) {
        forall i | 0 < i < |s| ensures !IsContinuation(s[i]) {
          assert s[i] == s[1..][i - 1];
        }
      }
    }
  }

  lemma {:induction false} LengthAppend(a: Bytes, b: Bytes)
    ensures Length(a + b) == Length(a) + Length(b)
    decreases |a|
  {
    if |a| == 0 {
      assert a + b == b;
    } else {
      assert (a + b)[1..] == a[1..] + b;
      LengthAppend(a[1..], b);
    }
  }

  /** On a well-formed string `len` is the number of code points. */
  lemma {:induction false} LengthIsCodePoints(s: Bytes)
    requires WellFormed(s)
    ensures Length(s) == CodePoints(s)
    decreases |s|
  {
    if |s| > 0 {
      var n := LeadLength(s);
      LeadLengthShape(s);
      assert s == s[..n] + s[n..];
      LengthAppend(s[..n], s[n..]);
      assert Length(s[..n]) == 1 by {
        var head := s[..n];
        assert forall i :: 1 <= i < n ==> IsContinuation(head[i]);
        assert Length(head[1..]) == 0 by {
          assert forall i :: 0 <= i < |head[1..]| ==> head[1..][i] == head[i + 1];
          NoneCounted(head[1..]);
        }
      }
      LengthIsCodePoints(s[n..]);
    }
  }

  lemma {:induction false} NoneCounted(s: Bytes)
    requires forall i :: 0 <= i < |s| ==> IsContinuation(s[i])
    ensures Length(s) == 0
    decreases |s|
  {
    if |s| > 0 {
      assert forall i :: 0 <= i < |s[1..]| ==> s[1..][i] == s[i + 1];
      NoneCounted(s[1..]);
    }
  }

  /** `str_bytes.decode("utf-8")`: the string, or `None` for a `UnicodeDecodeError`. */
  function Decode(s: Bytes): Option<PyStr> {
    if WellFormed(s) then Some(s) else None
  }

  /** A well-formed head sequence of `a` is read the same whatever follows `a`. */
  lemma LeadLengthAppend(a: Bytes, b: Bytes)
    requires |a| > 0 && LeadLength(a) > 0
    ensures LeadLength(a + b) == LeadLength(a)
  {
    assert forall i :: 0 <= i < |a| ==> (a + b)[i] == a[i];
  }

  /**
   * Decoding goes sequence by sequence: after a well-formed `a`, the whole of
   * `a + b` decodes exactly when `b` does, and `a` splits off `a + b` whole.
   */
  lemma {:induction false} WellFormedAppend(a: Bytes, b: Bytes)
    requires WellFormed(a)
    ensures WellFormed(a + b) <==> WellFormed(b)
    decreases |a|
  {
    if |a| == 0 {
      assert a + b == b;
    } else {
      var n := LeadLength(a);
      LeadLengthAppend(a, b);
      assert (a + b)[n..] == a[n..] + b;
      WellFormedAppend(a[n..], b);
    }
  }

  /** Every ASCII byte string is a well-formed string whose length is its byte count. */
  lemma {:induction false} AsciiIsWellFormed(s: Bytes)
    requires IsAscii(s)
    ensures WellFormed(s)
    ensures Length(s) == |s|
    decreases |s|
  {
    if |s| > 0 {
      assert IsAscii(s[1..]) by {
        assert forall i :: 0 <= i < |s[1..]| ==> s[1..][i] == s[i + 1];
      }
      AsciiIsWellFormed(s[1..]);
    }
  }

  /**
   * `len(s)` equals the UTF-8 byte count exactly for ASCII strings; any other
   * character takes at least two bytes and so makes `len(s)` fall short.
   */
  lemma {:induction false} LengthIsByteCountIffAscii(s: PyStr)
    requires WellFormed(s)
    ensures Length(s) == |s| <==> IsAscii(s)
    decreases |s|
  {
    LengthIsByteCountIffNoContinuation(s);
    if |s| > 0 && HasNoContinuation(s) {
      var n := LeadLength(s);
      LeadLengthShape(s);
      assert |s| > 1 ==> !IsContinuation(s[1]);
      assert n == 1;
      var rest := s[n..];
      assert HasNoContinuation(rest) by {
        assert forall i :: 0 <= i < |rest| ==> rest[i] == s[i + 1];
      }
      LengthIsByteCountIffAscii(rest);
      forall i | 0 <= i < |s| ensures s[i] < 0x80 {
        if i > 0 { assert s[i] == rest[i - 1]; }
      }
    }
  }
}
