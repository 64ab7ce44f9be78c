/**
  Protobuf records on the wire: tags, length prefixes and raw wire values, read from the front of a byte
  string. Shared by the table-driven and the generated codec. Reading inverts writing whatever follows,
  and appending bytes never changes what already reads.
*/
module Wire {
  import opened Bytes
  import opened Varint

  /** A decoded wire value before type interpretation. */
  datatype WireValue =
    | VarintValue(v: U64)
    | Fixed64(bits: seq<Byte>)
    | LengthDelimited(data: seq<Byte>)
    | Fixed32(bits: seq<Byte>)

  /** The low three bits of a tag. */
  type WireTy = wt: int | 0 <= wt < 8

  /** `(field_number << 3) | wire_type` as a varint. */
  function TagBytes(tag: U32, wt: WireTy): (bs: seq<Byte>)
    ensures |bs| >= 1
  {
    VarintBytes(8 * tag + wt)
  }

  function LenPrefixed(data: seq<Byte>): (bs: seq<Byte>)
    ensures |bs| > |data|
  {
    VarintBytes(|data|) + data
  }

  /** The field number of a tag varint, truncated to `u32` as both decoders do. */
  function FieldNumber(tagWire: U64): (n: U32) { tagWire / 8 % 0x1_0000_0000 }

  function ReadFixed(bs: seq<Byte>, n: nat): (r: Result<Read<seq<Byte>>, DecodeError>)
    ensures r.Ok? ==> r.value.consumed == n <= |bs|
  {
    if |bs| < n then Err(UnexpectedEof) else Ok(Read(bs[..n], n))
  }

  function ReadLen(bs: seq<Byte>): (r: Result<Read<seq<Byte>>, DecodeError>)
    ensures r.Ok? ==> 1 <= r.value.consumed <= |bs|
    ensures r.Ok? ==> |r.value.value| < |bs|
  {
    var h :- ReadVarint(bs);
    if |bs| < h.consumed + h.value then Err(UnexpectedEof)
    else Ok(Read(bs[h.consumed..h.consumed + h.value], h.consumed + h.value))
  }

  /** `decode_wire_value`. */
  function ReadWireValue(bs: seq<Byte>, wt: WireTy): (r: Result<Read<WireValue>, DecodeError>)
    ensures r.Ok? ==> r.value.consumed <= |bs|
  {
    match wt
    case 0 => var v :- ReadVarint(bs); Ok(Read(VarintValue(v.value), v.consumed))
    case 1 => var v :- ReadFixed(bs, 8); Ok(Read(Fixed64(v.value), v.consumed))
    case 2 => var v :- ReadLen(bs); Ok(Read(LengthDelimited(v.value), v.consumed))
    case 5 => var v :- ReadFixed(bs, 4); Ok(Read(Fixed32(v.value), v.consumed))
    case _ => Err(UnknownWireType(wt))
  }

  /** `tw_skip_wire_value`: how many bytes a value of this wire type takes. */
  function SkipWireValue(bs: seq<Byte>, wt: WireTy): (r: Result<nat, DecodeError>)
    ensures r.Ok? ==> r.value <= |bs|
  {
    match wt
    case 0 => var v :- ReadVarint(bs); Ok(v.consumed)
    case 1 => if |bs| < 8 then Err(UnexpectedEof) else Ok(8)
    case 2 =>
      var h :- ReadVarint(bs);
      if |bs| < h.consumed + h.value then Err(UnexpectedEof) else Ok(h.consumed + h.value)
    case 5 => if |bs| < 4 then Err(UnexpectedEof) else Ok(4)
    case _ => Err(UnknownWireType(wt))
  }

  /** Skipping and decoding agree on where a value ends and on every error. */
  lemma {:induction false} SkipMatchesRead(bs: seq<Byte>, wt: WireTy)
    ensures var r := ReadWireValue(bs, wt);
            SkipWireValue(bs, wt) == if r.Ok? then Ok(r.value.consumed) else Err(r.error)
  {
  }

  // ---- inverses, with arbitrary bytes following ----

  lemma {:induction false} ReadTagInverts(tag: U32, wt: WireTy, rest: seq<Byte>)
    ensures ReadVarint(TagBytes(tag, wt) + rest) == Ok(Read(8 * tag + wt, |TagBytes(tag, wt)|))
    ensures FieldNumber(8 * tag + wt) == tag && (8 * tag + wt) % 8 == wt
  {
    ReadVarintInverts(8 * tag + wt, rest);
  }

  lemma {:induction false} ReadLenInverts(data: seq<Byte>, rest: seq<Byte>)
    requires |data| < 0x1_0000_0000_0000_0000
    ensures ReadLen(LenPrefixed(data) + rest) == Ok(Read(data, |LenPrefixed(data)|))
  {
    var bs := LenPrefixed(data) + rest;
    var h := VarintBytes(|data|);
    assert bs == h + (data + rest);
    ReadVarintInverts(|data|, data + rest);
    assert bs[|h|..|h| + |data|] == data;
  }

  lemma {:induction false} ReadFixedInverts(data: seq<Byte>, rest: seq<Byte>)
    ensures ReadFixed(data + rest, |data|) == Ok(Read(data, |data|))
  {
    assert (data + rest)[..|data|] == data;
  }

  lemma {:induction false} ReadLenExtends(a: seq<Byte>, b: seq<Byte>)
    requires ReadLen(a).Ok?
    ensures ReadLen(a + b) == ReadLen(a)
  {
    ReadVarintExtends(a, b);
    var h := ReadVarint(a).value;
    assert (a + b)[h.consumed..h.consumed + h.value] == a[h.consumed..h.consumed + h.value];
  }

  lemma {:induction false} ReadFixedExtends(a: seq<Byte>, b: seq<Byte>, n: nat)
    requires ReadFixed(a, n).Ok?
    ensures ReadFixed(a + b, n) == ReadFixed(a, n)
  {
    assert (a + b)[..n] == a[..n];
  }

  lemma {:induction false} ReadWireValueExtends(a: seq<Byte>, b: seq<Byte>, wt: WireTy)
    requires ReadWireValue(a, wt).Ok?
    ensures ReadWireValue(a + b, wt) == ReadWireValue(a, wt)
  {
    if wt == 0 { ReadVarintExtends(a, b); }
    else if wt == 1 { ReadFixedExtends(a, b, 8); }
    else if wt == 2 { ReadLenExtends(a, b); }
    else { ReadFixedExtends(a, b, 4); }
  }
}
