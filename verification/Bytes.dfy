/** Machine integers and their big-endian and little-endian byte strings. */
module Bytes {

  type byte = x: int | 0 <= x < 0x100
  type u16 = x: int | 0 <= x < 0x1_0000
  type u32 = x: int | 0 <= x < 0x1_0000_0000
  type u64 = x: int | 0 <= x < 0x1_0000_0000_0000_0000
  type i64 = x: int | -0x8000_0000_0000_0000 <= x < 0x8000_0000_0000_0000

  type Bytes = seq<byte>

  datatype Option<+T> = None | Some(value: T)

  function Min(a: int, b: int): int {
    if a <= b then a else b
  }

  function Max(a: int, b: int): int {
    if a <= b then b else a
  }

  function Pow256(w: nat): nat {
    if w == 0 then 1 else 256 * Pow256(w - 1)
  }

  /** `to_be_bytes` of a `w`-byte integer. */
  function BE(n: nat, w: nat): (b: Bytes)
    requires n < Pow256(w)
    ensures |b| == w
    decreases w, n
  {
    if w == 0 then [] else BE(n / 256, w - 1) + [n % 256]
  }

  /** `from_be_bytes`. */
  function ValueBE(b: Bytes): nat {
    if b == [] then 0 else 256 * ValueBE(b[..|b| - 1]) + b[|b| - 1]
  }

  /** `to_le_bytes` of a `w`-byte integer. */
  function LE(n: nat, w: nat): (b: Bytes)
    requires n < Pow256(w)
    ensures |b| == w
    decreases w, n
  {
    if w == 0 then [] else [n % 256] + LE(n / 256, w - 1)
  }

  /** `from_le_bytes`. */
  function ValueLE(b: Bytes): nat {
    if b == [] then 0 else b[0] + 256 * ValueLE(b[1..])
  }

  lemma {:induction false} BEInverse(n: nat, w: nat)
    requires n < Pow256(w)
    ensures ValueBE(BE(n, w)) == n
  {
    if w > 0 {
      BEInverse(n / 256, w - 1);
      var b := BE(n, w);
      assert b[..|b| - 1] == BE(n / 256, w - 1);
    }
  }

  lemma {:induction false} ValueBEInverse(b: Bytes)
    ensures ValueBE(b) < Pow256(|b|)
    ensures BE(ValueBE(b), |b|) == b
  {
    if b != [] {
      ValueBEInverse(b[..|b| - 1]);
      assert b == b[..|b| - 1] + [b[|b| - 1]];
    }
  }

  lemma {:induction false} LEInverse(n: nat, w: nat)
    requires n < Pow256(w)
    ensures ValueLE(LE(n, w)) == n
  {
    if w > 0 {
      LEInverse(n / 256, w - 1);
      assert LE(n, w)[1..] == LE(n / 256, w - 1);
    }
  }

  lemma {:induction false} ValueLEInverse(b: Bytes)
    ensures ValueLE(b) < Pow256(|b|)
    ensures LE(ValueLE(b), |b|) == b
  {
    if b != [] {
      ValueLEInverse(b[1..]);
      assert b == [b[0]] + b[1..];
    }
  }
}
