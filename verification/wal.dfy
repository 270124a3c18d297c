/**
 * The write-ahead-log framing of scripts/wal.py.
 *
 * The writer puts every key and every value of a dictionary on the file as one
 * record: a 4-byte little-endian length prefix followed by the string's UTF-8
 * bytes. The reader (`read_string`) walks the file with a cursor, taking 4
 * bytes, decoding them as a length, taking that many bytes and decoding them as
 * UTF-8, until the file is exhausted. The file is a byte sequence here and the
 * cursor an index into it.
 *
 * The script's prefix is `len(s)`, a count of characters. `PrefixRule` names
 * that choice (`CharCount`) next to the byte count the reader relies on
 * (`ByteCount`), so that both can be stated and compared.
 */
module Wal {
  import opened Wrappers
  import opened Octets
  import opened Utf8
  import opened LittleEndian

  /** Width of a length prefix, in bytes. */
  const PrefixSize: nat := 4

  /** 2^32: the first length `to_bytes(4, "little")` refuses with `OverflowError`. */
  const PrefixLimit: nat := 0x1_0000_0000

  lemma PrefixLimitFits()
    ensures Pow256(PrefixSize) == PrefixLimit
  {
  }

  /** What the length prefix of a record counts. */
  datatype PrefixRule =
    | CharCount  // `len(s)`, as the script writes it
    | ByteCount  // the length of `bytes(s, "utf-8")`, what the reader consumes

  function PrefixLength(rule: PrefixRule, s: PyStr): nat {
    match rule
    case CharCount => Length(s)
    case ByteCount => |s|
  }

  /** Every prefix of `ss` is below 2^32, so no `to_bytes` call raises. */
  predicate Fits(rule: PrefixRule, ss: seq<PyStr>) {
    forall i :: 0 <= i < |ss| ==> PrefixLength(rule, ss[i]) < PrefixLimit
  }

  /** One record: the length prefix, then immediately the string's bytes. */
  function Record(rule: PrefixRule, s: PyStr): (r: Bytes)
    requires PrefixLength(rule, s) < PrefixLimit
    ensures |r| == PrefixSize + |s|
    ensures FromBytes(r[..PrefixSize]) == PrefixLength(rule, s)
    ensures r[PrefixSize..] == s
  {
    PrefixLimitFits();
    var prefix := ToBytes(PrefixLength(rule, s), PrefixSize);
    assert (prefix + s)[..PrefixSize] == prefix;
    prefix + s
  }

  /**
   * What is on the file after writing `ss` in order. An `OverflowError` stops
   * the script at the first string whose prefix does not fit; what was written
   * before it stays on the file.
   */
  datatype WriteOutcome = WriteOutcome(written: Bytes, overflow: bool)

  function WriteStrings(rule: PrefixRule, ss: seq<PyStr>): (o: WriteOutcome)
  {
    if |ss| == 0 then WriteOutcome([], false)
    else if PrefixLength(rule, ss[0]) >= PrefixLimit then WriteOutcome([], true)
    else
      var o := WriteStrings(rule, ss[1..]);
      WriteOutcome(Record(rule, ss[0]) + o.written, o.overflow)
  }

  /** The script raises `OverflowError` exactly when some prefix is 2^32 or more. */
  lemma {:induction false} OverflowIffTooLong(rule: PrefixRule, ss: seq<PyStr>)
    ensures WriteStrings(rule, ss).overflow <==> !Fits(rule, ss)
    ensures !Fits(rule, ss) || |WriteStrings(rule, ss).written| == |ss| * PrefixSize + SumOfLengths(ss)
  {
    if |ss| > 0 {
      OverflowIffTooLong(rule, ss[1..]);
      if Fits(rule, ss[1..]) {
        forall i | 0 <= i < |ss| && i > 0 ensures PrefixLength(rule, ss[i]) < PrefixLimit {
          assert ss[i] == ss[1..][i - 1];
        }
      } else {
        var i :| 0 <= i < |ss[1..]| && PrefixLength(rule, ss[1..][i]) >= PrefixLimit;
        assert ss[i + 1] == ss[1..][i];
      }
    }
  }

  /** The total number of UTF-8 bytes in `ss`. */
  function SumOfLengths(ss: seq<PyStr>): nat {
    if |ss| == 0 then 0 else |ss[0]| + SumOfLengths(ss[1..])
  }

  /** The strings of a dictionary in the order the script writes them: k1, v1, k2, v2, ... */
  function Flatten(entries: seq<(PyStr, PyStr)>): (ss: seq<PyStr>)
  {
    if |entries| == 0 then [] else [entries[0].0, entries[0].1] + Flatten(entries[1..])
  }

  /** Each key comes right before its value, and entries keep their iteration order. */
  lemma {:induction false} FlattenOrder(entries: seq<(PyStr, PyStr)>)
    ensures |Flatten(entries)| == 2 * |entries|
    ensures forall i :: 0 <= i < |entries| ==>
      Flatten(entries)[2 * i] == entries[i].0 && Flatten(entries)[2 * i + 1] == entries[i].1
  {
    if |entries| > 0 {
      FlattenOrder(entries[1..]);
      var ss := Flatten(entries);
      forall i | 1 <= i < |entries|
        ensures ss[2 * i] == entries[i].0 && ss[2 * i + 1] == entries[i].1
      {
        assert ss[2 * i] == Flatten(entries[1..])[2 * (i - 1)];
        assert ss[2 * i + 1] == Flatten(entries[1..])[2 * (i - 1) + 1];
        assert entries[i] == entries[1..][i - 1];
      }
    }
  }

  /** Writing `first` and then `second`: nothing of `second` once `first` raised `OverflowError`. */
  function Then(first: WriteOutcome, second: WriteOutcome): WriteOutcome {
    if first.overflow then first else WriteOutcome(first.written + second.written, second.overflow)
  }

  lemma {:induction false} WriteStringsAppend(rule: PrefixRule, a: seq<PyStr>, b: seq<PyStr>)
    ensures WriteStrings(rule, a + b) == Then(WriteStrings(rule, a), WriteStrings(rule, b))
    decreases |a|
  {
    if |a| == 0 {
      assert a + b == b;
    } else if PrefixLength(rule, a[0]) >= PrefixLimit {
      assert (a + b)[0] == a[0];
    } else {
      assert (a + b)[0] == a[0];
      assert (a + b)[1..] == a[1..] + b;
      WriteStringsAppend(rule, a[1..], b);
      var head, tail, rest := Record(rule, a[0]), WriteStrings(rule, a[1..]), WriteStrings(rule, b);
      if !tail.overflow {
        assert head + (tail.written + rest.written) == (head + tail.written) + rest.written;
      }
    }
  }

  /**
   * Writing one string: `file.write(len(s).to_bytes(4, "little"))`, which
   * raises `OverflowError` before writing anything when the prefix does not
   * fit, then `file.write(bytes(s, "utf-8"))`.
   */
  method WriteString(rule: PrefixRule, file: Bytes, s: PyStr) returns (file': Bytes, overflow: bool)
    ensures overflow <==> PrefixLength(rule, s) >= PrefixLimit
    ensures file' == if overflow then file else file + Record(rule, s)
  {
    var length := PrefixLength(rule, s);
    if length >= PrefixLimit {
      return file, true;
    }
    PrefixLimitFits();
    file' := file + ToBytes(length, PrefixSize);
    file' := file' + s;
    overflow := false;
  }

  /**
   * The writing loop of the script: for each entry, the key's record, then
   * the value's record. The script writes `len(k)`: `rule` is `CharCount`.
   */
  method WriteEntries(rule: PrefixRule, entries: seq<(PyStr, PyStr)>) returns (file: Bytes, overflow: bool)
    ensures WriteOutcome(file, overflow) == WriteStrings(rule, Flatten(entries))
  {
    file, overflow := [], false;
    for i := 0 to |entries|
      invariant WriteStrings(rule, Flatten(entries[..i])) == WriteOutcome(file, false)
    {
      var (k, v) := entries[i];
      FlattenSnoc(entries, i);
      FlattenAround(entries, i);
      WriteEntryStep(rule, Flatten(entries[..i]), k, v, Flatten(entries[i + 1..]));
      file, overflow := WriteString(rule, file, k);
      if overflow {
        return;
      }
      file, overflow := WriteString(rule, file, v);
      if overflow {
        return;
      }
    }
    assert entries[..|entries|] == entries;
  }

  /** One turn of the writing loop, in terms of `WriteStrings`. */
  lemma WriteEntryStep(rule: PrefixRule, done: seq<PyStr>, k: PyStr, v: PyStr, later: seq<PyStr>)
    requires !WriteStrings(rule, done).overflow
    ensures PrefixLength(rule, k) >= PrefixLimit ==>
      WriteStrings(rule, done + ([k, v] + later)) == WriteOutcome(WriteStrings(rule, done).written, true)
    ensures PrefixLength(rule, k) < PrefixLimit <= PrefixLength(rule, v) ==>
      WriteStrings(rule, done + ([k, v] + later)) ==
      WriteOutcome(WriteStrings(rule, done).written + Record(rule, k), true)
    ensures PrefixLength(rule, k) < PrefixLimit && PrefixLength(rule, v) < PrefixLimit ==>
      WriteStrings(rule, done + [k, v]) ==
      WriteOutcome(WriteStrings(rule, done).written + Record(rule, k)
                   + Record(rule, v), false)
  {
    if PrefixLength(rule, k) >= PrefixLimit {
      KeyOverflowsAfter(rule, done, k, v, later);
    } else if PrefixLength(rule, v) >= PrefixLimit {
      ValueOverflowsAfter(rule, done, k, v, later);
    } else {
      PairAfter(rule, done, k, v);
    }
  }

  lemma KeyOverflowsAfter(rule: PrefixRule, done: seq<PyStr>, k: PyStr, v: PyStr, later: seq<PyStr>)
    requires !WriteStrings(rule, done).overflow && PrefixLength(rule, k) >= PrefixLimit
    ensures WriteStrings(rule, done + ([k, v] + later)) == WriteOutcome(WriteStrings(rule, done).written, true)
  {
    WriteStringsAppend(rule, done, [k, v] + later);
    WriteFirstOverflows(rule, [k, v] + later);
    assert WriteStrings(rule, done).written + [] == WriteStrings(rule, done).written;
  }

  lemma ValueOverflowsAfter(rule: PrefixRule, done: seq<PyStr>, k: PyStr, v: PyStr, later: seq<PyStr>)
    requires !WriteStrings(rule, done).overflow && PrefixLength(rule, k) < PrefixLimit <= PrefixLength(rule, v)
    ensures WriteStrings(rule, done + ([k, v] + later)) ==
      WriteOutcome(WriteStrings(rule, done).written + Record(rule, k), true)
  {
    WriteStringsAppend(rule, done, [k, v] + later);
    WriteValueOverflows(rule, k, v, later);
  }

  lemma PairAfter(rule: PrefixRule, done: seq<PyStr>, k: PyStr, v: PyStr)
    requires !WriteStrings(rule, done).overflow
    requires PrefixLength(rule, k) < PrefixLimit && PrefixLength(rule, v) < PrefixLimit
    ensures WriteStrings(rule, done + [k, v]) ==
      WriteOutcome(WriteStrings(rule, done).written + Record(rule, k) + Record(rule, v), false)
  {
    var before := WriteStrings(rule, done).written;
    WriteStringsAppend(rule, done, [k, v]);
    WritePair(rule, k, v);
    assert before + (Record(rule, k) + Record(rule, v)) == before + Record(rule, k) + Record(rule, v);
  }

  /** Writing stops before anything is written when the first prefix does not fit. */
  lemma WriteFirstOverflows(rule: PrefixRule, ss: seq<PyStr>)
    requires |ss| > 0 && PrefixLength(rule, ss[0]) >= PrefixLimit
    ensures WriteStrings(rule, ss) == WriteOutcome([], true)
  {
  }

  lemma WriteValueOverflows(rule: PrefixRule, k: PyStr, v: PyStr, later: seq<PyStr>)
    requires PrefixLength(rule, k) < PrefixLimit <= PrefixLength(rule, v)
    ensures WriteStrings(rule, [k, v] + later) == WriteOutcome(Record(rule, k), true)
  {
    var ss := [k, v] + later;
    assert ss[0] == k && ss[1..] == [v] + later;
    WriteFirstOverflows(rule, [v] + later);
    assert Record(rule, k) + [] == Record(rule, k);
  }

  lemma WritePair(rule: PrefixRule, k: PyStr, v: PyStr)
    requires PrefixLength(rule, k) < PrefixLimit && PrefixLength(rule, v) < PrefixLimit
    ensures WriteStrings(rule, [k, v]) == WriteOutcome(Record(rule, k) + Record(rule, v), false)
  {
    assert [v][1..] == [];
    assert Record(rule, v) + [] == Record(rule, v);
    assert WriteStrings(rule, [v]) == WriteOutcome(Record(rule, v), false);
    assert [k, v][0] == k && [k, v][1..] == [v];
  }

  /** The entries written so far, extended by entry `i`. */
  lemma FlattenSnoc(entries: seq<(PyStr, PyStr)>, i: nat)
    requires i < |entries|
    ensures Flatten(entries[..i + 1]) == Flatten(entries[..i]) + [entries[i].0, entries[i].1]
  {
    var one := entries[i..i + 1];
    assert one[1..] == [];
    assert Flatten(one) == [entries[i].0, entries[i].1] + [];
    assert entries[..i + 1] == entries[..i] + one;
    FlattenAppend(entries[..i], one);
  }

  /** All the strings: those of the entries before `i`, entry `i`'s key and value, the rest. */
  lemma FlattenAround(entries: seq<(PyStr, PyStr)>, i: nat)
    requires i < |entries|
    ensures Flatten(entries) == Flatten(entries[..i]) + ([entries[i].0, entries[i].1] + Flatten(entries[i + 1..]))
  {
    FlattenCons(entries[i..]);
    assert entries[i..][1..] == entries[i + 1..];
    assert entries == entries[..i] + entries[i..];
    FlattenAppend(entries[..i], entries[i..]);
  }

  lemma FlattenCons(entries: seq<(PyStr, PyStr)>)
    requires |entries| > 0
    ensures Flatten(entries) == [entries[0].0, entries[0].1] + Flatten(entries[1..])
  {
  }

  lemma {:induction false} FlattenAppend(a: seq<(PyStr, PyStr)>, b: seq<(PyStr, PyStr)>)
    ensures Flatten(a + b) == Flatten(a) + Flatten(b)
  {
    if |a| == 0 {
      assert a + b == b;
    } else {
      assert (a + b)[0] == a[0];
      assert (a + b)[1..] == a[1..] + b;
      FlattenAppend(a[1..], b);
    }
  }

  function Min(a: nat, b: nat): nat {
    if a <= b then a else b
  }

  /**
   * What the reader produces: the strings it yielded, in file order, and
   * whether it stopped on a `UnicodeDecodeError`.
   */
  datatype ReadOutcome = ReadOutcome(yielded: seq<PyStr>, decodeError: bool)

  /**
   * `read_string` on a file holding `data`, from file position `pos` on. While
   * bytes remain it reads up to 4 of them (fewer at the end of the file), takes
   * their little-endian value as a length, reads up to that many bytes, and
   * decodes them; a `UnicodeDecodeError` ends the generator.
   */
  function ReadFrom(data: Bytes, pos: nat): (o: ReadOutcome)
    requires pos <= |data|
    decreases |data| - pos
  {
    if pos == |data| then ReadOutcome([], false)
    else Resume(Decode(data[HeaderEnd(data, pos)..PayloadEnd(data, pos)]), ReadFrom(data, PayloadEnd(data, pos)))
  }

  /**
   * The generator after one record: a failed decoding ends it with the error;
   * a decoded string is yielded before whatever the rest of the file yields.
   */
  function Resume(decoded: Option<PyStr>, later: ReadOutcome): ReadOutcome {
    match decoded
    case None => ReadOutcome([], true)
    case Some(s) => ReadOutcome([s] + later.yielded, later.decodeError)
  }

  /** Where the length prefix read at `pos` ends: 4 bytes on, or the end of the file. */
  function HeaderEnd(data: Bytes, pos: nat): (h: nat)
    requires pos <= |data|
    ensures pos <= h <= |data| && h <= pos + PrefixSize
    ensures pos < |data| ==> pos < h
  {
    Min(pos + PrefixSize, |data|)
  }

  /** Where the payload framed at `pos` ends: the prefix's value on, or the end of the file. */
  function PayloadEnd(data: Bytes, pos: nat): (p: nat)
    requires pos <= |data|
    ensures HeaderEnd(data, pos) <= p <= |data|
  {
    var h := HeaderEnd(data, pos);
    Min(h + FromBytes(data[pos..h]), |data|)
  }

  /** `read_string` on a whole file. */
  function ReadStrings(data: Bytes): ReadOutcome {
    ReadFrom(data, 0)
  }

  /**
   * One pass of the loop body up to the decoding: `file.read(4)`, then
   * `file.read(length)`, each returning fewer bytes at the end of the file.
   */
  method ReadRecord(data: Bytes, pos: nat) returns (payload: Bytes, next: nat)
    requires pos < |data|
    ensures pos < next <= |data|
    ensures next == PayloadEnd(data, pos) && payload == data[HeaderEnd(data, pos)..next]
  {
    var header := data[pos..Min(pos + PrefixSize, |data|)];
    var length := FromBytes(header);
    var start := pos + |header|;
    next := Min(start + length, |data|);
    payload := data[start..next];
  }

  /** One turn of the reading loop, in terms of `ReadFrom`. */
  lemma ReadFromStep(data: Bytes, pos: nat, payload: Bytes, next: nat, yielded: seq<PyStr>)
    requires pos < |data|
    requires next == PayloadEnd(data, pos) && payload == data[HeaderEnd(data, pos)..next]
    ensures Decode(payload).None? ==> ReadFrom(data, pos) == ReadOutcome([], true)
    ensures Decode(payload).Some? ==>
      ReadOutcome(yielded + ReadFrom(data, pos).yielded, ReadFrom(data, pos).decodeError) ==
      ReadOutcome((yielded + [payload]) + ReadFrom(data, next).yielded, ReadFrom(data, next).decodeError)
  {
    if Decode(payload).Some? {
      var after := ReadFrom(data, next);
      assert ReadFrom(data, pos) == ReadOutcome([payload] + after.yielded, after.decodeError);
      assert yielded + ([payload] + after.yielded) == (yielded + [payload]) + after.yielded;
    }
  }

  /** The loop of `read_string`, with the file position as a cursor into `data`. */
  method ReadAll(data: Bytes) returns (yielded: seq<PyStr>, decodeError: bool)
    ensures ReadOutcome(yielded, decodeError) == ReadStrings(data)
  {
    var pos := 0;
    yielded, decodeError := [], false;
    while pos < |data|
      invariant pos <= |data|
      invariant ReadStrings(data) == ReadOutcome(yielded + ReadFrom(data, pos).yielded, ReadFrom(data, pos).decodeError)
      decreases |data| - pos
    {
      var payload, next := ReadRecord(data, pos);
      ReadFromStep(data, pos, payload, next, yielded);
      var decoded := Decode(payload);
      if decoded.None? {
        assert yielded + [] == yielded;
        decodeError := true;
        return;
      }
      yielded := yielded + [decoded.value];
      pos := next;
    }
  }
}
