/** Python's `int.to_bytes(k, "little")` and `int.from_bytes(b, "little")`. */
module LittleEndian {
  import opened Octets

  /** 256 to the power `k`: the first value that does not fit in `k` bytes. */
  function Pow256(k: nat): (p: nat)
    ensures p >= 1
  {
    if k == 0 then 1 else 256 * Pow256(k - 1)
  }

  /** `int.from_bytes(b, "little")`, for a byte string of any length (a short read included). */
  function FromBytes(b: Bytes): (n: nat)
    ensures n < Pow256(|b|)
  {
    if |b| == 0 then 0 else b[0] + 256 * FromBytes(b[1..])
  }

  /**
   * `n.to_bytes(k, "little")`. Python raises `OverflowError` when `n` needs
   * more than `k` bytes; callers check `n < Pow256(k)` first.
   */
  function ToBytes(n: nat, k: nat): (r: Bytes)
    requires n < Pow256(k)
    ensures |r| == k
    ensures FromBytes(r) == n
  {
    if k == 0 then [] else [n % 256] + ToBytes(n / 256, k - 1)
  }

  /** Every `k`-byte string is the encoding of the number it decodes to. */
  lemma {:induction false} ToBytesFromBytes(b: Bytes)
    ensures ToBytes(FromBytes(b), |b|) == b
  {
    if |b| > 0 {
      ToBytesFromBytes(b[1..]);
      DivMod256(b[0], FromBytes(b[1..]));
    }
  }

  lemma DivMod256(lo: nat, hi: nat)
    requires lo < 256
    ensures (lo + 256 * hi) % 256 == lo
    ensures (lo + 256 * hi) / 256 == hi
  {
  }

  /** Distinct numbers below `256^k` have distinct `k`-byte encodings. */
  lemma ToBytesInjective(m: nat, n: nat, k: nat)
    requires m < Pow256(k) && n < Pow256(k)
    ensures ToBytes(m, k) == ToBytes(n, k) <==> m == n
  {
  }
}
