/** What the reader gets back from what the writer wrote. */
module WalRoundTrip {
  import opened Wrappers
  import opened Octets
  import opened Utf8
  import opened LittleEndian
  import opened Wal

  /** Reading does not depend on bytes before the cursor. */
  lemma {:induction false} ReadFromShift(x: Bytes, y: Bytes, q: nat)
    requires q <= |y|
    ensures ReadFrom(x + y, |x| + q) == ReadFrom(y, q)
    decreases |y| - q
  {
    if q < |y| {
      ShiftFrames(x, y, q);
      ReadFromShift(x, y, PayloadEnd(y, q));
    }
  }

  /** The prefix and the payload the reader finds at `q` in `y` lie `|x|` further on in `x + y`. */
  lemma ShiftFrames(x: Bytes, y: Bytes, q: nat)
    requires q < |y|
    ensures var d, h, p := x + y, HeaderEnd(y, q), PayloadEnd(y, q);
      HeaderEnd(d, |x| + q) == |x| + h && PayloadEnd(d, |x| + q) == |x| + p &&
      d[|x| + h..|x| + p] == y[h..p]
  {
    var d, h, p := x + y, HeaderEnd(y, q), PayloadEnd(y, q);
    SliceOfAppend(x, y, q, h);
    assert HeaderEnd(d, |x| + q) == |x| + h;
    SliceOfAppend(x, y, h, p);
  }

  lemma SliceOfAppend(x: Bytes, y: Bytes, i: nat, j: nat)
    requires i <= j <= |y|
    ensures (x + y)[|x| + i..|x| + j] == y[i..j]
  {
    var l, r := (x + y)[|x| + i..|x| + j], y[i..j];
    assert |l| == |r|;
    forall k | 0 <= k < |l| ensures l[k] == r[k] {
      assert l[k] == (x + y)[|x| + i + k];
    }
  }

  /**
   * Reading a record whose prefix `L` does not exceed the string's byte count:
   * the reader takes the first `L` bytes as the payload and resumes right after
   * them, inside the string when `L` falls short of it.
   */
  lemma ReadRecordStep(rule: PrefixRule, s: PyStr, rest: Bytes)
    requires PrefixLength(rule, s) < PrefixLimit
    requires PrefixLength(rule, s) <= |s|
    ensures var L := PrefixLength(rule, s);
      ReadStrings(Record(rule, s) + rest) == Resume(Decode(s[..L]), ReadStrings(s[L..] + rest))
  {
    var L := PrefixLength(rule, s);
    var data := Record(rule, s) + rest;
    RecordFrames(rule, s, rest);
    ReadFromShift(data[..PrefixSize + L], s[L..] + rest, 0);
    assert ReadStrings(data) == Resume(Decode(s[..L]), ReadFrom(data, PrefixSize + L));
  }

  /** Where the reader finds the prefix and the payload of a record at the start of the file. */
  lemma RecordFrames(rule: PrefixRule, s: PyStr, rest: Bytes)
    requires PrefixLength(rule, s) < PrefixLimit
    requires PrefixLength(rule, s) <= |s|
    ensures var L, data := PrefixLength(rule, s), Record(rule, s) + rest;
      HeaderEnd(data, 0) == PrefixSize && PayloadEnd(data, 0) == PrefixSize + L &&
      data[PrefixSize..PrefixSize + L] == s[..L] &&
      data == data[..PrefixSize + L] + (s[L..] + rest)
  {
    var L := PrefixLength(rule, s);
    var r := Record(rule, s);
    var data := r + rest;
    assert data[0..PrefixSize] == r[..PrefixSize];
    assert HeaderEnd(data, 0) == PrefixSize;
    assert data[PrefixSize..PrefixSize + L] == s[..L];
    assert data == data[..PrefixSize + L] + (s[L..] + rest);
  }

  predicate AllWellFormed(ss: seq<PyStr>) {
    forall i :: 0 <= i < |ss| ==> WellFormed(ss[i])
  }

  predicate AllAscii(ss: seq<PyStr>) {
    forall i :: 0 <= i < |ss| ==> IsAscii(ss[i])
  }

  /** What holds of every string holds of every string after the first, and conversely with the first. */
  lemma TailKeeps(rule: PrefixRule, ss: seq<PyStr>)
    requires |ss| > 0
    ensures AllWellFormed(ss) ==> AllWellFormed(ss[1..])
    ensures Fits(rule, ss) ==> Fits(rule, ss[1..])
    ensures AllAscii(ss) <==> IsAscii(ss[0]) && AllAscii(ss[1..])
    ensures [ss[0]] + ss[1..] == ss
  {
    assert forall i :: 0 <= i < |ss[1..]| ==> ss[1..][i] == ss[i + 1];
    if IsAscii(ss[0]) && AllAscii(ss[1..]) {
      forall i | 0 < i < |ss| ensures IsAscii(ss[i]) {
        assert ss[i] == ss[1..][i - 1];
      }
    }
  }

  /**
   * With byte-count prefixes the reader gives back every string written, in
   * order, and stops cleanly at the end of the file.
   */
  lemma {:induction false} ByteCountRoundTrip(ss: seq<PyStr>)
    requires AllWellFormed(ss)
    requires Fits(ByteCount, ss)
    ensures !WriteStrings(ByteCount, ss).overflow
    ensures ReadStrings(WriteStrings(ByteCount, ss).written) == ReadOutcome(ss, false)
  {
    if |ss| > 0 {
      var s := ss[0];
      TailKeeps(ByteCount, ss);
      ByteCountRoundTrip(ss[1..]);
      var rest := WriteStrings(ByteCount, ss[1..]).written;
      assert WriteStrings(ByteCount, ss) == WriteOutcome(Record(ByteCount, s) + rest, false);
      ByteCountStep(s, rest, ss[1..]);
    }
  }

  /** One record with a byte-count prefix reads back as the string it framed. */
  lemma ByteCountStep(s: PyStr, rest: Bytes, later: seq<PyStr>)
    requires WellFormed(s)
    requires |s| < PrefixLimit
    requires ReadStrings(rest) == ReadOutcome(later, false)
    ensures ReadStrings(Record(ByteCount, s) + rest) == ReadOutcome([s] + later, false)
  {
    ReadRecordStep(ByteCount, s, rest);
    assert s[..|s|] == s && s[|s|..] + rest == rest;
  }

  /**
   * With the script's character-count prefixes the reader gives back exactly
   * what was written if and only if every string is ASCII. The first string
   * holding another character is cut short at `len(s)` bytes, so the reader
   * either fails to decode it or yields a shorter string.
   */
  lemma {:induction false} CharCountRoundTripIffAscii(ss: seq<PyStr>)
    requires AllWellFormed(ss)
    requires Fits(CharCount, ss)
    ensures !WriteStrings(CharCount, ss).overflow
    ensures ReadStrings(WriteStrings(CharCount, ss).written) == ReadOutcome(ss, false) <==> AllAscii(ss)
  {
    if |ss| > 0 {
      var s := ss[0];
      TailKeeps(CharCount, ss);
      CharCountRoundTripIffAscii(ss[1..]);
      var rest := WriteStrings(CharCount, ss[1..]).written;
      assert WriteStrings(CharCount, ss) == WriteOutcome(Record(CharCount, s) + rest, false);
      CharCountStep(s, rest, ss[1..]);
    }
  }

  /**
   * One record written with a character-count prefix reads back as the string
   * it framed, followed by what the rest of the file reads back as, exactly
   * when that string is ASCII.
   */
  lemma CharCountStep(s: PyStr, rest: Bytes, later: seq<PyStr>)
    requires WellFormed(s)
    requires Length(s) < PrefixLimit
    ensures ReadStrings(Record(CharCount, s) + rest) == ReadOutcome([s] + later, false)
      <==> IsAscii(s) && ReadStrings(rest) == ReadOutcome(later, false)
  {
    ReadRecordStep(CharCount, s, rest);
    LengthIsByteCountIffAscii(s);
    var L := Length(s);
    var got := ReadStrings(Record(CharCount, s) + rest);
    if IsAscii(s) {
      assert s[..L] == s && s[L..] + rest == rest;
      var tail := ReadStrings(rest);
      assert got == ReadOutcome([s] + tail.yielded, tail.decodeError);
      assert ([s] + tail.yielded)[1..] == tail.yielded;
      assert ([s] + later)[1..] == later;
    } else if got.yielded != [] {
      assert got.yielded[0] == s[..L];
      assert |s[..L]| < |s|;
      assert ([s] + later)[0] == s;
    }
  }

  /** The script's own dictionary (lines 15-18), its ASCII strings spelled out as bytes. */
  function ScriptEntries(): seq<(PyStr, PyStr)> {
    [([0x6E, 0x61, 0x6D, 0x65],  // "name"
      [0x4A, 0x61, 0x6D, 0x65, 0x73, 0x20, 0x45, 0x72, 0x72, 0x69, 0x6E, 0x67, 0x74, 0x6F, 0x6E]),  // "James Errington"
     ([0x63, 0x6F, 0x75, 0x6E, 0x74, 0x72, 0x79],  // "country"
      [0x55, 0x6E, 0x69, 0x74, 0x65, 0x64, 0x20, 0x4B, 0x69, 0x6E, 0x67, 0x64, 0x6F, 0x6D])]  // "United Kingdom"
  }

  /** The `j`-th string written is a key for even `j` and the matching value for odd `j`. */
  lemma FlattenAt(entries: seq<(PyStr, PyStr)>, j: nat)
    requires j < 2 * |entries|
    ensures |Flatten(entries)| == 2 * |entries|
    ensures Flatten(entries)[j] == if j % 2 == 0 then entries[j / 2].0 else entries[j / 2].1
  {
    FlattenOrder(entries);
    var i := j / 2;
    assert j == 2 * i || j == 2 * i + 1;
  }

  predicate EntriesWellFormed(entries: seq<(PyStr, PyStr)>) {
    forall i :: 0 <= i < |entries| ==> WellFormed(entries[i].0) && WellFormed(entries[i].1)
  }

  predicate EntriesAscii(entries: seq<(PyStr, PyStr)>) {
    forall i :: 0 <= i < |entries| ==> IsAscii(entries[i].0) && IsAscii(entries[i].1)
  }

  /** No key or value has 2^32 characters or more, so the script's `to_bytes` never raises. */
  predicate EntriesFit(entries: seq<(PyStr, PyStr)>) {
    forall i :: 0 <= i < |entries| ==> Length(entries[i].0) < PrefixLimit && Length(entries[i].1) < PrefixLimit
  }

  /** A property holds of every string written exactly when it holds of every key and every value. */
  lemma FlattenAll(entries: seq<(PyStr, PyStr)>, P: PyStr -> bool)
    ensures (forall i :: 0 <= i < |entries| ==> P(entries[i].0) && P(entries[i].1)) <==>
      (forall j :: 0 <= j < |Flatten(entries)| ==> P(Flatten(entries)[j]))
  {
    var ss := Flatten(entries);
    FlattenOrder(entries);
    if forall i :: 0 <= i < |entries| ==> P(entries[i].0) && P(entries[i].1) {
      forall j | 0 <= j < |ss|
        ensures P(ss[j])
      {
        FlattenAt(entries, j);
      }
    }
    if forall j :: 0 <= j < |ss| ==> P(ss[j]) {
      forall i | 0 <= i < |entries|
        ensures P(entries[i].0) && P(entries[i].1)
      {
        assert P(ss[2 * i]) && P(ss[2 * i + 1]);
      }
    }
  }

  /** Well-formedness, fitting and ASCII-ness of the strings written are those of the dictionary. */
  lemma FlattenKeeps(entries: seq<(PyStr, PyStr)>)
    ensures EntriesWellFormed(entries) <==> AllWellFormed(Flatten(entries))
    ensures EntriesFit(entries) <==> Fits(CharCount, Flatten(entries))
    ensures EntriesAscii(entries) <==> AllAscii(Flatten(entries))
  {
    var ss := Flatten(entries);
    assert EntriesWellFormed(entries) <==> AllWellFormed(ss) by {
      FlattenAll(entries, s => WellFormed(s));
    }
    assert EntriesFit(entries) <==> Fits(CharCount, ss) by {
      FlattenAll(entries, s => Length(s) < PrefixLimit);
    }
    assert EntriesAscii(entries) <==> AllAscii(ss) by {
      FlattenAll(entries, s => IsAscii(s));
    }
  }

  /**
   * The dictionary-level statement: the script's reader prints k1, v1, k2, v2,
   * ... exactly when every key and value is ASCII.
   */
  lemma EntriesRoundTripIffAscii(entries: seq<(PyStr, PyStr)>)
    requires EntriesWellFormed(entries)
    requires EntriesFit(entries)
    ensures !WriteStrings(CharCount, Flatten(entries)).overflow
    ensures ReadStrings(WriteStrings(CharCount, Flatten(entries)).written) == ReadOutcome(Flatten(entries), false)
      <==> EntriesAscii(entries)
  {
    FlattenKeeps(entries);
    CharCountRoundTripIffAscii(Flatten(entries));
  }

  /** Running the script prints the two keys and two values, key before value, in order. */
  lemma ScriptRoundTrip()
    ensures !WriteStrings(CharCount, Flatten(ScriptEntries())).overflow
    ensures ReadStrings(WriteStrings(CharCount, Flatten(ScriptEntries())).written) ==
      ReadOutcome(Flatten(ScriptEntries()), false)
  {
    var e := ScriptEntries();
    forall i | 0 <= i < |e| ensures IsAscii(e[i].0) && IsAscii(e[i].1) {
    }
    forall i | 0 <= i < |e|
      ensures WellFormed(e[i].0) && WellFormed(e[i].1)
      ensures Length(e[i].0) == |e[i].0| && Length(e[i].1) == |e[i].1|
    {
      AsciiIsWellFormed(e[i].0);
      AsciiIsWellFormed(e[i].1);
    }
    assert EntriesAscii(e) && EntriesWellFormed(e) && EntriesFit(e);
    EntriesRoundTripIffAscii(e);
  }

  /**
   * A one-entry dictionary whose key is "é" (U+00E9, two UTF-8 bytes). Its
   * prefix says 1, so the reader takes the lone lead byte 0xC3 as the payload
   * and decoding fails on the very first record.
   */
  lemma AccentedKeyMisframes()
    ensures WellFormed([0xC3, 0xA9]) && Length([0xC3, 0xA9]) == 1
    ensures ReadStrings(WriteStrings(CharCount, Flatten([([0xC3, 0xA9], [0x61])])).written) ==
      ReadOutcome([], true)
  {
    var k: PyStr, v: PyStr := [0xC3, 0xA9], [0x61];
    assert Length(k) == 1 by {
      assert k[1..][1..] == [];
    }
    assert WellFormed(k) by {
      assert k[2..] == [];
    }
    var ss := Flatten([(k, v)]);
    assert [(k, v)][1..] == [];
    assert Flatten([(k, v)][1..]) == [];
    assert [k, v] + [] == [k, v];
    assert ss == [k, v];
    assert WellFormed(v) && Length(v) == 1 by {
      AsciiIsWellFormed(v);
    }
    ghost var w := WriteStrings(CharCount, [v]).written;
    assert [k, v][1..] == [v];
    assert WriteStrings(CharCount, ss).written == Record(CharCount, k) + w;
    ReadRecordStep(CharCount, k, w);
    assert !WellFormed(k[..1]);
  }
}
