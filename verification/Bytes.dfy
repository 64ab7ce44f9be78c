/**
  Machine integers, bytes, little-endian words, UTF-8 validity and the small failure types shared by every
  codec module, with the wrap-around of Rust's integer casts written out.
*/
module Bytes {

  type Byte = b: int | 0 <= b < 256

  type U32 = n: int | 0 <= n < 0x1_0000_0000

  type U64 = n: int | 0 <= n < 0x1_0000_0000_0000_0000

  type I64 = n: int | -0x8000_0000_0000_0000 <= n < 0x8000_0000_0000_0000

  datatype Option<+T> = None | Some(value: T)

  datatype Result<+T, +E> = Ok(value: T) | Err(error: E) {
    predicate IsFailure() { Err? }

    function PropagateFailure<U>(): Result<U, E>
      requires Err?
    {
      Err(error)
    }

    function Extract(): T
      requires Ok?
    {
      value
    }
  }

  /** Re-bracketing and cutting a concatenation, stated once so that codec proofs can cite it. */
  lemma {:induction false} Cut<T>(a: seq<T>, b: seq<T>, c: seq<T>)
    ensures a + b + c == a + (b + c)
    ensures (a + (b + c))[|a|..] == b + c
    ensures (b + c)[|b|..] == c
  {
  }

  /** `n as u64` for a signed or unsigned source: two's complement wrap-around. */
  function WrapU64(n: int): (r: U64) { n % 0x1_0000_0000_0000_0000 }

  /** `n as u32`. */
  function WrapU32(n: int): (r: U32) { n % 0x1_0000_0000 }

  /** `n as i64`. */
  function WrapI64(n: int): (r: I64) {
    var u := n % 0x1_0000_0000_0000_0000;
    if u < 0x8000_0000_0000_0000 then u else u - 0x1_0000_0000_0000_0000
  }

  /** `n as i32`. */
  function WrapI32(n: int): (r: I64) {
    var u := n % 0x1_0000_0000;
    if u < 0x8000_0000 then u else u - 0x1_0000_0000
  }

  /** Little-endian value of a byte string: `uN::from_le_bytes`. */
  function FromLe(bs: seq<Byte>): (n: nat) {
    if bs == [] then 0 else bs[0] + 256 * FromLe(bs[1..])
  }

  /** The `k` low bytes of `n`, least significant first: `uN::to_le_bytes`. */
  function ToLe(n: nat, k: nat): (bs: seq<Byte>)
    ensures |bs| == k
  {
    if k == 0 then [] else [n % 256] + ToLe(n / 256, k - 1)
  }

  function Pow256(k: nat): (p: nat)
    ensures p > 0
  {
    if k == 0 then 1 else 256 * Pow256(k - 1)
  }

  lemma {:induction false} LeRoundTrip(n: nat, k: nat)
    requires n < Pow256(k)
    ensures FromLe(ToLe(n, k)) == n
  {
    if k != 0 {
      assert n / 256 < Pow256(k - 1);
      LeRoundTrip(n / 256, k - 1);
      assert ToLe(n, k)[1..] == ToLe(n / 256, k - 1);
    }
  }

  lemma {:induction false} LeBytesRoundTrip(bs: seq<Byte>)
    ensures FromLe(bs) < Pow256(|bs|)
    ensures ToLe(FromLe(bs), |bs|) == bs
  {
    if bs != [] {
      LeBytesRoundTrip(bs[1..]);
      assert FromLe(bs) / 256 == FromLe(bs[1..]);
      assert bs == [bs[0]] + bs[1..];
    }
  }

  /** Well-formed UTF-8 (Table 3-7 of the Unicode Standard): what `from_utf8` accepts. */
  predicate ValidUtf8(s: seq<Byte>)
    decreases |s|
  {
    if s == [] then true
    else if s[0] < 0x80 then ValidUtf8(s[1..])
    else if 0xC2 <= s[0] <= 0xDF then
      |s| >= 2 && Continuation(s[1]) && ValidUtf8(s[2..])
    else if 0xE0 <= s[0] <= 0xEF then
      && |s| >= 3 && Continuation(s[1]) && Continuation(s[2])
      && (s[0] == 0xE0 ==> s[1] >= 0xA0) && (s[0] == 0xED ==> s[1] <= 0x9F)
      && ValidUtf8(s[3..])
    else if 0xF0 <= s[0] <= 0xF4 then
      && |s| >= 4 && Continuation(s[1]) && Continuation(s[2]) && Continuation(s[3])
      && (s[0] == 0xF0 ==> s[1] >= 0x90) && (s[0] == 0xF4 ==> s[1] <= 0x8F)
      && ValidUtf8(s[4..])
    else false
  }

  predicate Continuation(b: Byte) { 0x80 <= b <= 0xBF }

  lemma {:induction false} AsciiIsUtf8(s: seq<Byte>)
    requires forall i :: 0 <= i < |s| ==> s[i] < 0x80
    ensures ValidUtf8(s)
  {
    if s != [] { AsciiIsUtf8(s[1..]); }
  }

  /** A float bit pattern that equals `0.0`: both zeros, so every bit but the sign is clear. */
  predicate IsZeroFloat(bits: seq<Byte>) {
    forall i :: 0 <= i < |bits| ==> bits[i] == 0 || (i == |bits| - 1 && bits[i] == 0x80)
  }

  /** Buffers are shorter than this, as a `usize` of 64 bits can count. */
  const MAX_LEN := 0x1_0000_0000_0000_0000
}
