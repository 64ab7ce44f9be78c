/** Base-128 varints. */
module Varint {
  // Source: typeway-grpc/src/proto_codec.rs, typeway-protobuf/src/codec.rs

  import opened Bytes

  datatype DecodeError =
    | UnexpectedEof
    | VarintTooLong
    | UnknownWireType(wt: int)
    | InvalidUtf8
    | ValueConversion
    | EncodingFailed
    | Unmodelled

  /** A decoded value and the number of input bytes it took. */
  datatype Read<+T> = Read(value: T, consumed: nat)

  /** Base-128 digits, least significant first, with a continuation bit on all but the last. */
  function VarintBytes(v: nat): (bs: seq<Byte>)
    ensures |bs| >= 1
    ensures forall i :: 0 <= i < |bs| ==> (bs[i] < 0x80 <==> i == |bs| - 1)
  {
    if v < 0x80 then [v] else [v % 0x80 + 0x80] + VarintBytes(v / 0x80)
  }

  /** Reads base-128 digits without truncation, giving up after `budget` bytes. */
  function RawVarint(bs: seq<Byte>, budget: nat): (r: Result<Read<nat>, DecodeError>)
    ensures r.Ok? ==> 1 <= r.value.consumed <= |bs| && r.value.consumed <= budget
    ensures r.Err? ==> r.error.UnexpectedEof? || r.error.VarintTooLong?
  {
    if bs == [] then Err(UnexpectedEof)
    else if budget == 0 then Err(VarintTooLong)
    else if bs[0] < 0x80 then Ok(Read(bs[0], 1))
    else
      var rest :- RawVarint(bs[1..], budget - 1);
      Ok(Read(bs[0] - 0x80 + 0x80 * rest.value, 1 + rest.consumed))
  }

  /** What both varint decoders compute: at most ten bytes, bits above 64 dropped. */
  function ReadVarint(bs: seq<Byte>): (r: Result<Read<U64>, DecodeError>)
    ensures r.Ok? ==> 1 <= r.value.consumed <= |bs|
  {
    var raw :- RawVarint(bs, 10);
    Ok(Read(raw.value % 0x1_0000_0000_0000_0000, raw.consumed))
  }

  // ---- laws of the specification ----

  function Pow128(k: nat): (p: nat)
    ensures p > 0
  {
    if k == 0 then 1 else 0x80 * Pow128(k - 1)
  }

  lemma {:induction false} Pow128Ten()
    ensures Pow128(9) == 0x8000_0000_0000_0000
    ensures Pow128(10) == 0x40_0000_0000_0000_0000
  {
    assert Pow128(3) == 0x20_0000;
    assert Pow128(6) == 0x400_0000_0000;
    assert Pow128(9) == 0x8000_0000_0000_0000;
  }

  /** A varint of `v` needs `k` bytes exactly when `v` has `k` base-128 digits. */
  lemma {:induction false} VarintLength(v: nat, k: nat)
    requires k >= 1
    ensures v < Pow128(k) <==> |VarintBytes(v)| <= k
  {
    if v < 0x80 {
      assert Pow128(k) >= 0x80 by { if k > 1 { assert Pow128(k - 1) >= 1; } }
    } else if k > 1 {
      VarintLength(v / 0x80, k - 1);
      assert v < Pow128(k) <==> v / 0x80 < Pow128(k - 1);
    }
  }

  lemma {:induction false} RawVarintInverts(v: nat, rest: seq<Byte>, budget: nat)
    requires |VarintBytes(v)| <= budget
    ensures RawVarint(VarintBytes(v) + rest, budget) == Ok(Read(v, |VarintBytes(v)|))
  {
    var bs := VarintBytes(v) + rest;
    if v >= 0x80 {
      RawVarintInverts(v / 0x80, rest, budget - 1);
      assert bs[1..] == VarintBytes(v / 0x80) + rest;
    }
  }

  /** Round trip with any bytes following: decoding an encoded `u64` gives it back and stops at its end. */
  lemma {:induction false} ReadVarintInverts(v: U64, rest: seq<Byte>)
    ensures |VarintBytes(v)| <= 10
    ensures ReadVarint(VarintBytes(v) + rest) == Ok(Read(v, |VarintBytes(v)|))
  {
    Pow128Ten();
    VarintLength(v, 10);
    RawVarintInverts(v, rest, 10);
  }

  lemma {:induction false} RawVarintExtends(a: seq<Byte>, b: seq<Byte>, budget: nat)
    requires RawVarint(a, budget).Ok?
    ensures RawVarint(a + b, budget) == RawVarint(a, budget)
  {
    if a[0] >= 0x80 {
      RawVarintExtends(a[1..], b, budget - 1);
      assert (a + b)[1..] == a[1..] + b;
    }
  }

  /** A successful read never looks past what it consumed. */
  lemma {:induction false} ReadVarintExtends(a: seq<Byte>, b: seq<Byte>)
    requires ReadVarint(a).Ok?
    ensures ReadVarint(a + b) == ReadVarint(a)
  {
    RawVarintExtends(a, b, 10);
  }

  // ---- encode_varint / decode_varint (proto_codec.rs) ----

  /** `encode_varint`: appends to the buffer one byte at a time. */
  method EncodeVarint(buf: seq<Byte>, value: U64) returns (out: seq<Byte>)
    ensures out == buf + VarintBytes(value)
  {
    out := buf;
    var v: U64 := value;
    while true
      invariant out + VarintBytes(v) == buf + VarintBytes(value)
      decreases v
    {
      var byte: Byte := v % 0x80;
      var next: U64 := v / 0x80;
      if next == 0 {
        out := out + [byte];
        break;
      }
      assert out + VarintBytes(v) == out + [byte + 0x80] + VarintBytes(next);
      out := out + [byte + 0x80];
      v := next;
    }
  }

  /** `x << 7k`, without truncation. */
  function Shl7(x: nat, k: nat): (r: nat)
  {
    if k == 0 then x else 0x80 * Shl7(x, k - 1)
  }

  lemma {:induction false} Shl7Linear(x: nat, y: nat, k: nat)
    ensures Shl7(x + y, k) == Shl7(x, k) + Shl7(y, k)
    ensures Shl7(0x80 * y, k) == Shl7(y, k + 1)
  {
    if k != 0 { Shl7Linear(x, y, k - 1); }
  }

  lemma {:induction false} Shl7Bounds(x: nat, y: nat, k: nat)
    ensures Shl7(1, k) == Pow128(k)
    ensures x <= y ==> Shl7(x, k) <= Shl7(y, k)
  {
    if k != 0 { Shl7Bounds(x, y, k - 1); }
  }

  /** Digits already read, as a number: what the accumulator holds before the loop's next step. */
  ghost function Digits(bs: seq<Byte>): (n: nat)
  {
    if bs == [] then 0 else bs[0] % 0x80 + 0x80 * Digits(bs[1..])
  }

  lemma {:induction false} DigitsSnoc(bs: seq<Byte>, b: Byte)
    ensures Digits(bs + [b]) == Digits(bs) + Shl7(b % 0x80, |bs|)
    ensures Digits(bs) < Pow128(|bs|)
  {
    if bs == [] {
      assert [b][1..] == [];
      assert [b] == bs + [b];
    } else {
      DigitsSnoc(bs[1..], b);
      assert (bs + [b])[1..] == bs[1..] + [b];
    }
  }

  predicate AllContinue(bs: seq<Byte>) { forall i :: 0 <= i < |bs| ==> bs[i] >= 0x80 }

  /** Continuing a raw read after a prefix of continuation bytes. */
  lemma {:induction false} RawVarintPrefix(pre: seq<Byte>, rest: seq<Byte>, budget: nat)
    requires AllContinue(pre) && |pre| <= budget
    ensures var r := RawVarint(rest, budget - |pre|);
            RawVarint(pre + rest, budget) ==
            if r.Err? then r
            else Ok(Read(Digits(pre) + Shl7(r.value.value, |pre|), |pre| + r.value.consumed))
  {
    hide Pow128;
    if pre == [] {
      assert pre + rest == rest;
    } else {
      RawVarintPrefix(pre[1..], rest, budget - 1);
      assert (pre + rest)[1..] == pre[1..] + rest;
    }
  }

  lemma {:induction false} Pow128Monotone(i: nat, j: nat)
    requires i <= j
    ensures Pow128(i) <= Pow128(j)
  {
    if i < j { Pow128Monotone(i, j - 1); }
  }

  lemma {:induction false} Shl7Three(x: nat, k: nat)
    ensures Shl7(x, k + 3) == 0x20_0000 * Shl7(x, k)
  {
    assert Shl7(x, k + 1) == 0x80 * Shl7(x, k);
    assert Shl7(x, k + 2) == 0x80 * Shl7(x, k + 1);
  }

  lemma {:induction false} Shl7Nine(digit: nat)
    ensures Shl7(digit, 9) == 0x8000_0000_0000_0000 * digit
  {
    Shl7Three(digit, 0);
    Shl7Three(digit, 3);
    Shl7Three(digit, 6);
  }

  lemma {:induction false} SmallDigitFits(acc: nat, digit: nat, k: nat)
    requires k < 9 && acc < Pow128(k) && digit < 0x80
    ensures acc + Shl7(digit, k) < 0x1_0000_0000_0000_0000
  {
    Pow128Ten();
    Shl7Bounds(digit, 0x7f, k);
    Shl7Linear(0x7f, 1, k);
    assert Shl7(0x7f, k) + Pow128(k) == Shl7(0x80, k);
    Shl7Linear(0, 1, k);
    Shl7Bounds(1, 1, k + 1);
    Pow128Monotone(k + 1, 9);
  }

  lemma {:induction false} LastDigit(acc: nat, digit: nat)
    requires acc < 0x8000_0000_0000_0000 && digit < 0x80
    ensures var d := 0x8000_0000_0000_0000 * digit;
            acc + d % 0x1_0000_0000_0000_0000 == (acc + d) % 0x1_0000_0000_0000_0000
  {
    var d := 0x8000_0000_0000_0000 * digit;
    var q, m := digit / 2, digit % 2;
    assert d == 0x1_0000_0000_0000_0000 * q + 0x8000_0000_0000_0000 * m;
  }

  /** Adding a digit shifted by 7k bits, truncated to 64 bits, is the truncated sum. */
  lemma {:induction false} TruncatedDigit(acc: nat, digit: nat, k: nat)
    requires k < 10 && acc < Pow128(k) && digit < 0x80
    ensures acc + Shl7(digit, k) % 0x1_0000_0000_0000_0000
         == (acc + Shl7(digit, k)) % 0x1_0000_0000_0000_0000
  {
    if k < 9 {
      SmallDigitFits(acc, digit, k);
    } else {
      Pow128Ten();
      Shl7Nine(digit);
      LastDigit(acc, digit);
    }
  }

  /** `acc |= digit << 7k` on a `u64` whose bits from 7k up are still clear. */
  function OrShifted(acc: nat, digit: nat, k: nat): (r: U64)
    requires k < 10 && acc < Pow128(k) && digit < 0x80
    ensures r == (acc + Shl7(digit, k)) % 0x1_0000_0000_0000_0000
  {
    TruncatedDigit(acc, digit, k);
    acc + Shl7(digit, k) % 0x1_0000_0000_0000_0000
  }

  lemma {:induction false} DigitsFit(bs: seq<Byte>)
    requires |bs| <= 9
    ensures Digits(bs) < Pow128(|bs|) <= 0x8000_0000_0000_0000
  {
    DigitsSnoc(bs, 0);
    Pow128Monotone(|bs|, 9);
    Pow128Ten();
  }

  lemma {:induction false} DigitsStep(bytes: seq<Byte>, k: nat)
    requires k < |bytes| && k <= 10
    ensures Digits(bytes[..k + 1]) == Digits(bytes[..k]) + Shl7(bytes[k] % 0x80, k)
    ensures k < 10 ==> Digits(bytes[..k]) < Pow128(k) <= 0x8000_0000_0000_0000
  {
    assert bytes[..k + 1] == bytes[..k] + [bytes[k]];
    DigitsSnoc(bytes[..k], bytes[k]);
    if k < 10 { DigitsFit(bytes[..k]); }
  }

  /** One loop step of either decoder: the reading so far, extended by the byte at `k`. */
  lemma {:induction false} DecodeStep(bytes: seq<Byte>, k: nat)
    requires k < |bytes| && k <= 10 && AllContinue(bytes[..k])
    ensures k == 10 ==> ReadVarint(bytes) == Err(VarintTooLong)
    ensures k < 10 && bytes[k] < 0x80 ==>
              ReadVarint(bytes) == Ok(Read(Digits(bytes[..k + 1]) % 0x1_0000_0000_0000_0000, k + 1))
  {
    assert bytes == bytes[..k] + bytes[k..];
    RawVarintPrefix(bytes[..k], bytes[k..], 10);
    DigitsStep(bytes, k);
  }

  lemma {:induction false} DecodeEnd(bytes: seq<Byte>)
    requires AllContinue(bytes) && |bytes| <= 10
    ensures ReadVarint(bytes) == Err(UnexpectedEof)
  {
    RawVarintPrefix(bytes, [], 10);
    assert bytes + [] == bytes;
  }

  lemma {:induction false} EmptyDigits()
    ensures Digits([]) == 0
  {
  }

  /** `decode_varint`: shift-and-or loop over the bytes, shift checked against 70. */
  method DecodeVarint(bytes: seq<Byte>) returns (r: Result<Read<U64>, DecodeError>)
    ensures r == ReadVarint(bytes)
  {
    hide ReadVarint, Shl7, Digits, Pow128;
    assert Digits(bytes[..0]) == 0 by { EmptyDigits(); assert bytes[..0] == []; }
    var result: U64 := 0;
    var shift: nat := 0;
    for i := 0 to |bytes|
      invariant shift == 7 * i && i <= 10
      invariant AllContinue(bytes[..i])
      invariant result == Digits(bytes[..i]) % 0x1_0000_0000_0000_0000
    {
      DecodeStep(bytes, i);
      DigitsStep(bytes, i);
      if shift >= 70 {
        return Err(VarintTooLong);
      }
      result := OrShifted(result, bytes[i] % 0x80, i);
      if bytes[i] < 0x80 {
        return Ok(Read(result, i + 1));
      }
      shift := shift + 7;
    }
    assert bytes[..|bytes|] == bytes;
    DecodeEnd(bytes);
    return Err(UnexpectedEof);
  }

  // ---- tw_encode_varint, tw_decode_varint, tw_varint_len (typeway-protobuf) ----

  /** `tw_encode_varint`: one-byte fast path, then a test-before-write loop. */
  method TwEncodeVarint(buf: seq<Byte>, value: U64) returns (out: seq<Byte>)
    ensures out == buf + VarintBytes(value)
  {
    if value < 0x80 {
      return buf + [value];
    }
    out := buf;
    var v: U64 := value;
    while v >= 0x80
      invariant out + VarintBytes(v) == buf + VarintBytes(value)
    {
      assert out + VarintBytes(v) == out + [v % 0x80 + 0x80] + VarintBytes(v / 0x80);
      out := out + [v % 0x80 + 0x80];
      v := v / 0x80;
    }
    out := out + [v];
  }

  /** The two-byte fast path of `tw_decode_varint`. */
  lemma {:induction false} TwoByteRead(bytes: seq<Byte>)
    requires |bytes| >= 2 && bytes[0] >= 0x80
    ensures Digits(bytes[..2]) == bytes[0] % 0x80 + 0x80 * (bytes[1] as int % 0x80)
    ensures bytes[1] < 0x80 ==> ReadVarint(bytes) == Ok(Read(Digits(bytes[..2]), 2))
  {
    assert bytes[..1][1..] == [];
    assert Digits(bytes[..1]) == bytes[0] % 0x80;
    DigitsStep(bytes, 1);
    DecodeStep(bytes, 1);
    assert Shl7(bytes[1] % 0x80, 1) == 0x80 * (bytes[1] as int % 0x80);
  }

  /** `tw_decode_varint`: one- and two-byte fast paths before the general loop. */
  method TwDecodeVarint(bytes: seq<Byte>) returns (r: Result<Read<U64>, DecodeError>)
    ensures r == ReadVarint(bytes)
  {
    if bytes == [] { return Err(UnexpectedEof); }
    var b0: int := bytes[0];
    if b0 < 0x80 { return Ok(Read(b0, 1)); }
    if |bytes| < 2 {
      DecodeEnd(bytes);
      return Err(UnexpectedEof);
    }
    var b1: int := bytes[1];
    TwoByteRead(bytes);
    if b1 < 0x80 {
      return Ok(Read(b0 % 0x80 + 0x80 * b1, 2));
    }
    var value: U64 := b0 % 0x80 + 0x80 * (b1 % 0x80);
    r := TwDecodeTail(bytes, value);
  }

  /** The general loop of `tw_decode_varint`, entered at the third byte. */
  method TwDecodeTail(bytes: seq<Byte>, start: U64) returns (r: Result<Read<U64>, DecodeError>)
    requires |bytes| >= 2 && AllContinue(bytes[..2]) && start == Digits(bytes[..2])
    ensures r == ReadVarint(bytes)
  {
    hide ReadVarint, Shl7, Digits, Pow128;
    var value := start;
    for k := 2 to |bytes|
      invariant k <= 10
      invariant AllContinue(bytes[..k])
      invariant value == Digits(bytes[..k]) % 0x1_0000_0000_0000_0000
    {
      DecodeStep(bytes, k);
      DigitsStep(bytes, k);
      if k >= 10 { return Err(VarintTooLong); }
      value := OrShifted(value, bytes[k] % 0x80, k);
      if bytes[k] < 0x80 { return Ok(Read(value, k + 1)); }
    }
    assert bytes[..|bytes|] == bytes;
    DecodeEnd(bytes);
    return Err(UnexpectedEof);
  }

  /** Position of the highest set bit: `ilog2`. */
  function Ilog2(v: nat): (k: nat)
    requires v >= 1
  {
    if v < 2 then 0 else 1 + Ilog2(v / 2)
  }

  /** `tw_varint_len`: a closed formula on the highest bit of `value | 1`. */
  function VarintLen(value: U64): (n: nat)
  {
    (Ilog2(if value % 2 == 0 then value + 1 else value) * 9 + 73) / 64
  }

  lemma {:induction false} Ilog2Seven(v: nat)
    requires v >= 0x80
    ensures Ilog2(v) == 7 + Ilog2(v / 0x80)
  {
    assert v / 2 / 2 == v / 4 && v / 4 / 2 == v / 8 && v / 8 / 2 == v / 16;
    assert v / 16 / 2 == v / 32 && v / 32 / 2 == v / 64 && v / 64 / 2 == v / 128;
  }

  lemma {:induction false} LengthByIlog(v: nat)
    requires v >= 1
    ensures |VarintBytes(v)| == Ilog2(v) / 7 + 1
  {
    if v < 0x80 {
      assert Pow2(7) == 0x80;
      Ilog2Bound(v, 7);
    } else {
      Ilog2Seven(v);
      LengthByIlog(v / 0x80);
    }
  }

  function Pow2(k: nat): (p: nat) { if k == 0 then 1 else 2 * Pow2(k - 1) }

  lemma {:induction false} Ilog2Bound(v: nat, k: nat)
    requires 1 <= v < Pow2(k)
    ensures Ilog2(v) < k
  {
    if v >= 2 { Ilog2Bound(v / 2, k - 1); }
  }

  lemma {:induction false} Pow2SixtyFour()
    ensures Pow2(64) == 0x1_0000_0000_0000_0000
  {
    assert Pow2(8) == 0x100;
    assert Pow2(16) == 0x1_0000;
    assert Pow2(24) == 0x100_0000;
    assert Pow2(32) == 0x1_0000_0000;
    assert Pow2(40) == 0x100_0000_0000;
    assert Pow2(48) == 0x1_0000_0000_0000;
    assert Pow2(56) == 0x100_0000_0000_0000;
  }

  /** The closed length formula is the number of bytes written, for every `u64`. */
  lemma {:induction false} VarintLenExact(value: U64)
    ensures VarintLen(value) == |VarintBytes(value)|
  {
    var v: U64 := if value % 2 == 0 then value + 1 else value;
    LengthByIlog(v);
    assert v / 0x80 == value / 0x80;
    assert |VarintBytes(v)| == |VarintBytes(value)|;
    Pow2SixtyFour();
    Ilog2Bound(v, 64);
  }
}
