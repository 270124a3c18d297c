# tasiadb: AST node taxonomy and WAL string framing

This project models two small parts of tasiadb in Dafny.

**The statement AST** (`src/parser/ast.go`):

- the `NodeType` tag, an `int8`, and its six named constants numbered by `iota`;
- the `Node` interface and its single operation `Pos()`;
- the `Statement` wrapper, which delegates `Pos()` to its `Content`;
- the three statement records `CreateTableStatement`, `InsertStatement` and `SelectStatement`, each of which answers its write-once `start` field.

These become immutable datatypes (module `Ast`). Tokens come from the lexer and are an opaque type parameter.

**The write-ahead-log framing** (`scripts/wal.py`):

- the writing loop puts each key and then its value on the file as a record: a 4-byte little-endian length prefix followed by the string's UTF-8 bytes;
- `read_string` walks the file with a cursor. It takes 4 bytes, reads them as a length, takes that many bytes and decodes them as UTF-8. It stops at the end of the file, or with a `UnicodeDecodeError`.

The file is a byte sequence and the cursor an index into it. Both loops are methods. Each is proved equal to a specification function:

- `WriteStrings` for the writer;
- `ReadFrom`/`ReadStrings` for the reader.

The round-trip lemmas relate the two functions.

A Python string is held as its UTF-8 bytes (module `Utf8`):

- `bytes(s, "utf-8")` is therefore the identity;
- `WellFormed` follows Table 3-7 of the Unicode Standard;
- `len(s)` counts the bytes that are not continuation bytes, which is proved equal to the number of code points;
- `decode("utf-8")` succeeds exactly on well-formed input.

Module `LittleEndian` holds `int.to_bytes(k, "little")` and `int.from_bytes(b, "little")`.

The script writes `len(k)`, a count of characters. The reader consumes that many bytes. `PrefixRule` names both choices: `CharCount` is the script as written and `ByteCount` is the byte count. With `CharCount`, the round trip holds if and only if every string is ASCII. With `ByteCount`, it holds for every well-formed string (see Findings).

Three points about `ast.go` shape the `Ast` module:

- Only the three statement records and `*Statement` implement `Node`. The value kinds `NumberValue`, `TextValue` and `BooleanValue` exist only as `NodeType` tags, with no node type of their own.
- Because `*Statement` itself satisfies `Node`, the `Node` datatype has a fourth variant, `Wrapper`.
- `Statement.Pos()` on a nil `Content` is a nil-pointer panic in Go; the model returns `None` there.

## Model

| member | source | states |
|---|---|---|
| Ast.Code | src/parser/ast.go:7-14 | each constant's value is its index in declaration order, 0 to 5, so it fits in an int8 |
| Ast.KindOf | src/parser/ast.go:7-14 | a NodeType value names a constant exactly when it lies in 0..5, and then names the one whose `Code` it is |
| Ast.CodeRoundTrip | src/parser/ast.go:7-14 | the six values are pairwise distinct: `KindOf(Code(k)) == Some(k)`, and `KindOf(t) == Some(k)` exactly when `Code(k) == t` |
| Ast.Node.Pos | src/parser/ast.go:36-38 | `Pos()` on a `Node`: a record answers its `start` (also lines 48-50 and 59-61), a wrapped `*Statement` delegates; its meaning is stated by `RecordPos` and `StatementPos` |
| Ast.Statement.Pos | src/parser/ast.go:24-26 | `Statement.Pos()`: the `Pos()` of `Content`, `None` for the nil-`Content` panic; its meaning is stated by `StatementDelegates` and `StatementPos` |
| Ast.RecordPos | src/parser/ast.go:36-38 | `Pos()` of a `CreateTableStatement`, `InsertStatement` or `SelectStatement` record is its own `start`, unchanged (also lines 48-50 and 59-61) |
| Ast.StatementDelegates | src/parser/ast.go:24-26 | a `Statement` reports exactly the `Pos()` of the node it holds |
| Ast.Innermost | src/parser/ast.go:20-26 | following nested `Statement` wrappers ends at a statement record, if at all |
| Ast.StatementPos | src/parser/ast.go:24-26 | at any nesting depth, `Statement.Pos()` is the `start` of the innermost record, and it panics (is `None`) exactly when no record is there |
| Utf8.LeadLength | scripts/wal.py:12 | the well-formed UTF-8 sequence at the head of a byte string (Table 3-7) never runs past its end |
| Utf8.LeadLengthShape | scripts/wal.py:12 | such a sequence is one lead byte then continuation bytes, at most 4 bytes long, and is 1 byte exactly for ASCII |
| Utf8.Length | scripts/wal.py:23 | `len(s)` never exceeds the UTF-8 byte count |
| Utf8.LengthIsCodePoints | scripts/wal.py:23 | on a well-formed string, `len(s)` is the number of code points |
| Utf8.LengthIsByteCountIffNoContinuation | scripts/wal.py:23 | `len(s)` equals the byte count exactly when no byte is a continuation byte |
| Utf8.LengthAppend | scripts/wal.py:23 | `len` of a concatenation is the sum of the `len`s |
| Utf8.LengthIsByteCountIffAscii | scripts/wal.py:23-26 | for a well-formed string, `len(s)` equals its UTF-8 byte count if and only if the string is ASCII |
| Utf8.AsciiIsWellFormed | scripts/wal.py:12 | ASCII bytes always decode, and their `len` is their byte count |
| Utf8.Decode | scripts/wal.py:12 | `decode("utf-8")`: the string when `WellFormed`, `None` for `UnicodeDecodeError`; its meaning is stated by `WellFormed`, `WellFormedAppend` and `AsciiIsWellFormed` |
| Utf8.WellFormed | scripts/wal.py:12 | what `decode("utf-8")` accepts: a sequence of Table 3-7 sequences; its properties are stated by `WellFormedAppend` and `AsciiIsWellFormed` |
| Utf8.WellFormedAppend | scripts/wal.py:12 | decoding goes sequence by sequence: after well-formed bytes `a`, the bytes `a + b` decode exactly when `b` does |
| LittleEndian.FromBytes | scripts/wal.py:10 | `int.from_bytes(b, "little")` of `k` bytes is below 256^k, short reads included |
| LittleEndian.ToBytes | scripts/wal.py:23 | `n.to_bytes(k, "little")` is `k` bytes long and `from_bytes` gives back `n` |
| LittleEndian.ToBytesFromBytes | scripts/wal.py:10 | every `k`-byte string is the `to_bytes` of the number it reads as |
| LittleEndian.ToBytesInjective | scripts/wal.py:23 | distinct lengths below 256^k get distinct prefixes |
| Wal.PrefixLimitFits | scripts/wal.py:23 | 256^4 is 2^32, the first length a 4-byte prefix cannot hold |
| Wal.Record | scripts/wal.py:23-24 | a record is 4 bytes whose little-endian value is the prefix length, followed immediately by the string's bytes |
| Wal.WriteStrings | scripts/wal.py:22-26 | the file the writer produces from a list of strings: their records in order, stopped by the first `OverflowError`; stated by `OverflowIffTooLong`, `WriteStringsAppend` and the round-trip lemmas |
| Wal.Flatten | scripts/wal.py:22 | the strings of a dictionary in writing order; stated by `FlattenOrder` |
| Wal.OverflowIffTooLong | scripts/wal.py:22-26 | writing stops with `OverflowError` exactly when some prefix is 2^32 or more; otherwise 4 + byte count bytes are written per string |
| Wal.FlattenOrder | scripts/wal.py:22-26 | the strings are written as k1, v1, k2, v2, ...: each key right before its value, entries in iteration order |
| Wal.WriteStringsAppend | scripts/wal.py:22-26 | writing `a + b` writes `a`, and then `b` unless `a` overflowed |
| Wal.WriteString | scripts/wal.py:23-24 | one string: `OverflowError` with the file untouched when the prefix does not fit, otherwise the file gains exactly that string's record |
| Wal.WriteEntries | scripts/wal.py:21-26 | the writing loop leaves on the file exactly `WriteStrings` of the keys and values in order, stopping at the first overflow |
| Wal.WriteEntryStep | scripts/wal.py:22-26 | one loop turn: the key's record then the value's record are appended, or the write stops at the first that overflows |
| Wal.FlattenSnoc | scripts/wal.py:22 | the strings of the first `i + 1` entries are those of the first `i`, then key `i` and value `i` |
| Wal.FlattenAround | scripts/wal.py:22 | all strings are those before entry `i`, then entry `i`'s key and value, then those after it |
| Wal.ReadFrom | scripts/wal.py:8-13 | what `read_string` yields from a file position on, and whether a `UnicodeDecodeError` ends it; stated by `ReadFromShift`, `ReadRecordStep` and the round-trip lemmas |
| Wal.ReadStrings | scripts/wal.py:7-13 | `read_string` on a whole file, from position 0; `ReadAll` is proved equal to it |
| Wal.HeaderEnd | scripts/wal.py:9 | `file.read(4)` consumes at most 4 bytes, stays within the file, and consumes at least one when bytes remain |
| Wal.PayloadEnd | scripts/wal.py:11 | `file.read(length)` ends no earlier than the prefix and no later than the end of the file |
| Wal.ReadRecord | scripts/wal.py:9-11 | one loop turn reads up to 4 prefix bytes and then up to that many payload bytes, and always advances the cursor |
| Wal.ReadFromStep | scripts/wal.py:8-13 | one loop turn yields the decoded payload and continues after it, or ends with the decode error |
| Wal.ReadAll | scripts/wal.py:7-13 | the reading loop yields exactly `ReadStrings` of the file: every record in file order until the end, or up to the first decode error |
| WalRoundTrip.ReadFromShift | scripts/wal.py:8-13 | what the reader yields from a position depends only on the bytes from there on |
| WalRoundTrip.RecordFrames | scripts/wal.py:9-11 | at a record with prefix `L`, the reader takes the 4 prefix bytes and then the first `L` bytes of the string |
| WalRoundTrip.ReadRecordStep | scripts/wal.py:9-13 | a record whose prefix `L` is at most the byte count: the reader decodes its first `L` bytes and resumes right after them |
| WalRoundTrip.ByteCountStep | scripts/wal.py:9-13 | with a byte-count prefix, one record reads back as its own string, followed by whatever the rest reads as |
| WalRoundTrip.ByteCountRoundTrip | scripts/wal.py:21-30 | with byte-count prefixes, reading what was written yields every well-formed string back, in order, without error |
| WalRoundTrip.CharCountStep | scripts/wal.py:23-26 | with the script's `len(s)` prefix, one record reads back as its string exactly when that string is ASCII |
| WalRoundTrip.CharCountRoundTripIffAscii | scripts/wal.py:21-30 | with the script's prefixes, reading what was written yields exactly the strings written if and only if all of them are ASCII |
| WalRoundTrip.FlattenAt | scripts/wal.py:22-26 | the `j`-th string written is key `j/2` for even `j` and its value for odd `j` |
| WalRoundTrip.FlattenAll | scripts/wal.py:22-26 | any property holds of every string written exactly when it holds of every key and every value |
| WalRoundTrip.FlattenKeeps | scripts/wal.py:22-26 | the written strings are all well-formed, all have fewer than 2^32 characters, or are all ASCII, exactly when the dictionary's keys and values are |
| WalRoundTrip.EntriesRoundTripIffAscii | scripts/wal.py:21-30 | for every dictionary the script writes without `OverflowError` (fewer than 2^32 characters per string), it reads back k1, v1, k2, v2, ... exactly when every key and value is ASCII |
| WalRoundTrip.ScriptRoundTrip | scripts/wal.py:15-30 | for the script's own dictionary, the reader yields "name", "James Errington", "country", "United Kingdom" in that order |
| WalRoundTrip.AccentedKeyMisframes | scripts/wal.py:23-26 | the one-entry dictionary {"é": "a"} is written with prefix 1 for a 2-byte key, and reading it fails on the first record |

## Left out

- `micro_time` (scripts/wal.py:4-5) is left out: it reads the wall clock and rounds a float.
- Opening and naming the file by timestamp, and `print`, are left out; they are I/O. The file is a byte sequence written from empty and read from position 0.
- `file.peek()` is modelled only as "some bytes remain". The number of bytes it returns is not modelled.
- `read_string` is a lazy generator in Python. Here the reader returns the yielded strings in one list, together with a flag for the `UnicodeDecodeError` that ends it. Strings yielded before the error are kept, as the script's `for` loop prints them.
- No UTF-8 encoder or decoder is verified. A string is its UTF-8 bytes, and `decode` is the well-formedness check.
- Lone surrogates, which `bytes(s, "utf-8")` refuses with `UnicodeEncodeError`, are not modelled. A `str` holding one has no UTF-8 bytes to stand for it.
- Dictionary keys are not required to be distinct. The entries are a sequence in iteration order, which is all the writer uses.
- `lex.Token` is an opaque type parameter. The lexer is not part of this model.
- The statement parser, its grammar and its error kinds are not part of this model. So are the column-count relations the parser establishes; the records themselves do not constrain them.
- `Pos()` being read-only holds by construction: nodes are immutable datatypes, and `Pos` is a function that changes nothing.
- The same holds for `SelectStatement`: it has a single ordered `columns` sequence and one `tableName` (no flag field) by construction of the datatype.
- The `_type` field of each record is an arbitrary `NodeType`. Nothing in the source ties it to the record's kind.
- Go's `int` for `start` is unbounded here; positions are only copied, never computed.
- `Statement` chains are finite in the model. Go pointers allow a cyclic wrapper (`s.Content = s`), on which `Pos()` recurses until a fatal stack overflow, neither a position nor a nil panic; an inductive datatype cannot hold such a cycle, so `StatementPos` covers finite chains only.
- A nil `*Statement` receiver, or a typed nil pointer stored in `Content`, is folded into `None`, like a nil `Content`.

## Findings

| source | as written | input that shows it | evidently intended | confidence | as-written member | corrected member |
|---|---|---|---|---|---|---|
| scripts/wal.py:23-26 | the length prefix is `len(k)` / `len(v)`, a count of characters, while the payload written is the UTF-8 bytes and the reader consumes as many bytes as the prefix says | key "é" (bytes C3 A9): the prefix is 1, the reader takes the lone byte C3 and `decode` raises `UnicodeDecodeError`; in general the first non-ASCII string either fails to decode at once or is cut short, and the reader then resumes inside its bytes | the prefix is the byte count, `len(bytes(k, "utf-8"))`, which makes every well-formed string read back | high (not executed) | WalRoundTrip.AccentedKeyMisframes | WalRoundTrip.ByteCountRoundTrip |
