/** Base64 and percent encoding. */
module TextCodecs {
  // Source: typeway-grpc/src/proto_codec.rs, typeway-grpc/src/tonic_compat.rs, typeway-grpc/src/status.rs

  import opened Bytes

  // ---- base64 ----

  const PAD: Byte := 61

  type Sextet = v: int | 0 <= v < 64

  /** The alphabet, as ASCII codes. */
  function CharOf(v: Sextet): (c: Byte)
    ensures c < 0x80 && c != PAD
    ensures ValueOf(c) == Some(v)
  {
    if v < 26 then v + 65
    else if v < 52 then v + 71
    else if v < 62 then v - 4
    else if v == 62 then 43
    else 47
  }

  function ValueOf(c: Byte): (v: Option<Sextet>) {
    if 65 <= c <= 90 then Some(c - 65)
    else if 97 <= c <= 122 then Some(c - 71)
    else if 48 <= c <= 57 then Some(c + 4)
    else if c == 43 then Some(62)
    else if c == 47 then Some(63)
    else None
  }

  /** The characters of one chunk of one to three bytes. */
  function EncodeChunk(chunk: seq<Byte>): (cs: seq<Byte>)
    requires 1 <= |chunk| <= 3
    ensures |cs| == 4 && forall i :: 0 <= i < 4 ==> cs[i] < 0x80
  {
    var b0: int := chunk[0];
    var b1: int := if |chunk| > 1 then chunk[1] else 0;
    var b2: int := if |chunk| > 2 then chunk[2] else 0;
    var triple := 0x1_0000 * b0 + 0x100 * b1 + b2;
    [CharOf(triple / 0x4_0000),
     CharOf(triple / 0x1000 % 64),
     if |chunk| > 1 then CharOf(triple / 64 % 64) else PAD,
     if |chunk| > 2 then CharOf(triple % 64) else PAD]
  }

  function Base64(bytes: seq<Byte>): (cs: seq<Byte>)
    ensures forall i :: 0 <= i < |cs| ==> cs[i] < 0x80
  {
    if bytes == [] then []
    else if |bytes| <= 3 then EncodeChunk(bytes)
    else EncodeChunk(bytes[..3]) + Base64(bytes[3..])
  }

  /** One turn of the chunk loop at an absolute index. */
  lemma {:induction false} ChunkTurn(bytes: seq<Byte>, i: nat, n: nat)
    requires i < |bytes| && n == if |bytes| - i < 3 then |bytes| - i else 3
    ensures Base64(bytes[i..]) == EncodeChunk(bytes[i..i + n]) + Base64(bytes[i + n..])
  {
    hide EncodeChunk;
    var rest := bytes[i..];
    if |rest| <= 3 {
      assert bytes[i..i + n] == rest && bytes[i + n..] == [];
      assert EncodeChunk(rest) + [] == EncodeChunk(rest);
    } else {
      assert rest[..3] == bytes[i..i + n] && rest[3..] == bytes[i + n..];
    }
  }

  method Base64Encode(bytes: seq<Byte>) returns (out: seq<Byte>)
    ensures out == Base64(bytes)
  {
    hide EncodeChunk, Base64;
    out := [];
    var i := 0;
    assert bytes[0..] == bytes;
    while i < |bytes|
      invariant i <= |bytes|
      invariant out + Base64(bytes[i..]) == Base64(bytes)
    {
      var n := if |bytes| - i < 3 then |bytes| - i else 3;
      ChunkTurn(bytes, i, n);
      out := out + EncodeChunk(bytes[i..i + n]);
      i := i + n;
    }
    assert bytes[i..] == [];
    Base64IsText([]);
  }

  function TrimPad(cs: seq<Byte>): (r: seq<Byte>)
    ensures |r| <= |cs| && r == cs[..|r|]
    ensures r != [] ==> r[|r| - 1] != PAD
  {
    if cs != [] && cs[|cs| - 1] == PAD then TrimPad(cs[..|cs| - 1]) else cs
  }

  function Low(bits: nat): (p: nat)
    ensures p > 0
  {
    if bits == 0 then 1 else 2 * Low(bits - 1)
  }

  /** The decoder's accumulator loop: `bits` pending bits held in `buf`. */
  function Drain(cs: seq<Byte>, buf: nat, bits: nat): (r: Option<seq<Byte>>)
    requires bits < 8 && buf < Low(bits)
  {
    if cs == [] then Some([])
    else if ValueOf(cs[0]).None? then None
    else
      var acc, n := 64 * buf + ValueOf(cs[0]).value, bits + 6;
      if n < 8 then
        LowSix(buf, bits);
        Drain(cs[1..], acc, n)
      else
        match Drain(cs[1..], acc % Low(n - 8), n - 8)
        case None => None
        case Some(rest) => Some([acc / Low(n - 8) % 256] + rest)
  }

  lemma {:induction false} LowSix(buf: nat, bits: nat)
    requires buf < Low(bits)
    ensures 64 * buf + 63 < Low(bits + 6)
  {
    assert Low(bits + 1) == 2 * Low(bits);
    assert Low(bits + 2) == 4 * Low(bits);
    assert Low(bits + 3) == 8 * Low(bits);
    assert Low(bits + 4) == 16 * Low(bits);
    assert Low(bits + 5) == 32 * Low(bits);
  }

  function Unbase64(cs: seq<Byte>): (r: Option<seq<Byte>>) { Drain(TrimPad(cs), 0, 0) }

  method Base64Decode(cs: seq<Byte>) returns (r: Option<seq<Byte>>)
    ensures r == Unbase64(cs)
  {
    var input := TrimPad(cs);
    var out: seq<Byte>, buf: nat, bits: nat := [], 0, 0;
    assert input[0..] == input;
    assert Drain(input, 0, 0).Some? ==> [] + Drain(input, 0, 0).value == Drain(input, 0, 0).value;
    for i := 0 to |input|
      invariant bits < 8 && buf < Low(bits)
      invariant Unbase64(cs) == match Drain(input[i..], buf, bits) case None => None case Some(rest) => Some(out + rest)
    {
      ghost var before := Drain(input[i..], buf, bits);
      assert input[i..][0] == input[i] && input[i..][1..] == input[i + 1..];
      var val := ValueOf(input[i]);
      if val.None? { return None; }
      LowSix(buf, bits);
      buf := 64 * buf + val.value;
      bits := bits + 6;
      if bits >= 8 {
        bits := bits - 8;
        ghost var rest := Drain(input[i + 1..], buf % Low(bits), bits);
        assert rest.Some? ==> before == Some([buf / Low(bits) % 256] + rest.value);
        assert rest.Some? ==> out + ([buf / Low(bits) % 256] + rest.value) == out + [buf / Low(bits) % 256] + rest.value;
        out := out + [buf / Low(bits) % 256];
        buf := buf % Low(bits);
      }
    }
    assert out + [] == out;
    return Some(out);
  }

  lemma {:induction false} Lows()
    ensures Low(0) == 1 && Low(2) == 4 && Low(4) == 16 && Low(6) == 64
  {
  }

  /** A decoded byte in front of the rest. */
  function Prefix(bs: seq<Byte>, r: Option<seq<Byte>>): (p: Option<seq<Byte>>) {
    match r case None => None case Some(rest) => Some(bs + rest)
  }

  lemma {:induction false} PrefixTwice(a: seq<Byte>, b: seq<Byte>, r: Option<seq<Byte>>)
    ensures Prefix(a, Prefix(b, r)) == Prefix(a + b, r)
  {
    if r.Some? { assert a + (b + r.value) == a + b + r.value; }
  }

  lemma {:induction false} DrainAt0(s: Sextet, t: seq<Byte>)
    ensures s < Low(6) && Drain([CharOf(s)] + t, 0, 0) == Drain(t, s, 6)
  {
    hide CharOf, ValueOf;
    Lows();
    assert ([CharOf(s)] + t)[1..] == t;
  }

  lemma {:induction false} DrainAt6(buf: nat, s: Sextet, t: seq<Byte>)
    requires buf < 64 && buf < Low(6)
    ensures s % 16 < Low(4)
    ensures Drain([CharOf(s)] + t, buf, 6) == Prefix([(4 * buf + s / 16) % 256], Drain(t, s % 16, 4))
  {
    hide CharOf, ValueOf, Low;
    Lows();
    assert ([CharOf(s)] + t)[1..] == t;
    CutFour(buf, s);
  }

  lemma {:induction false} CutFour(buf: nat, s: Sextet)
    ensures (64 * buf + s) / 16 == 4 * buf + s / 16 && (64 * buf + s) % 16 == s % 16
  {
  }

  lemma {:induction false} DrainAt4(buf: nat, s: Sextet, t: seq<Byte>)
    requires buf < 16 && buf < Low(4)
    ensures s % 4 < Low(2)
    ensures Drain([CharOf(s)] + t, buf, 4) == Prefix([(16 * buf + s / 4) % 256], Drain(t, s % 4, 2))
  {
    hide CharOf, ValueOf;
    Lows();
    assert ([CharOf(s)] + t)[1..] == t;
    var acc := 64 * buf + s;
    assert acc == 4 * (16 * buf + s / 4) + s % 4;
  }

  lemma {:induction false} DrainAt2(buf: nat, s: Sextet, t: seq<Byte>)
    requires buf < 4 && buf < Low(2)
    ensures Drain([CharOf(s)] + t, buf, 2) == Prefix([(64 * buf + s) % 256], Drain(t, 0, 0))
  {
    hide CharOf, ValueOf;
    Lows();
    assert ([CharOf(s)] + t)[1..] == t;
  }

  /** Four characters carry three bytes and leave nothing pending. */
  lemma {:induction false} DrainFour(s0: Sextet, s1: Sextet, s2: Sextet, s3: Sextet, rest: seq<Byte>)
    ensures Drain([CharOf(s0)] + ([CharOf(s1)] + ([CharOf(s2)] + ([CharOf(s3)] + rest))), 0, 0)
         == Prefix([(4 * s0 + s1 / 16) % 256, (16 * (s1 % 16) + s2 / 4) % 256, (64 * (s2 % 4) + s3) % 256],
                   Drain(rest, 0, 0))
  {
    hide CharOf, ValueOf, Drain;
    var t3 := [CharOf(s3)] + rest;
    var t2 := [CharOf(s2)] + t3;
    var x, y, z: Byte := (4 * s0 + s1 / 16) % 256, (16 * (s1 % 16) + s2 / 4) % 256, (64 * (s2 % 4) + s3) % 256;
    DrainAt0(s0, [CharOf(s1)] + t2);
    DrainAt6(s0, s1, t2);
    DrainAt4(s1 % 16, s2, t3);
    DrainAt2(s2 % 4, s3, rest);
    PrefixTwice([y], [z], Drain(rest, 0, 0));
    PrefixTwice([x], [y] + [z], Drain(rest, 0, 0));
    assert [x] + ([y] + [z]) == [x, y, z];
  }

  lemma {:induction false} ThreeBytes(b0: int, b1: int, b2: int)
    requires 0 <= b0 < 256 && 0 <= b1 < 256 && 0 <= b2 < 256
    ensures var s1, s2 := b0 % 4 * 16 + b1 / 16, b1 % 16 * 4 + b2 / 64;
            && 0 <= s1 < 64 && 0 <= s2 < 64
            && (4 * (b0 / 4) + s1 / 16) % 256 == b0
            && (16 * (s1 % 16) + s2 / 4) % 256 == b1
            && (64 * (s2 % 4) + b2 % 64) % 256 == b2
  {
    SplitSextet(b0 % 4, b1 / 16, 16);
    SplitSextet(b1 % 16, b2 / 64, 4);
  }

  lemma {:induction false} SplitSextet(hi: int, lo: int, d: int)
    requires 0 <= hi && (d == 16 || d == 4) && 0 <= lo < d
    ensures (hi * d + lo) / d == hi && (hi * d + lo) % d == lo
  {
    if d == 16 { assert (hi * 16 + lo) / 16 == hi; } else { assert (hi * 4 + lo) / 4 == hi; }
  }

  lemma {:induction false} DrainChunk(chunk: seq<Byte>, rest: seq<Byte>)
    requires |chunk| == 3
    ensures Drain(EncodeChunk(chunk) + rest, 0, 0) == Prefix(chunk, Drain(rest, 0, 0))
  {
    hide CharOf, ValueOf, Drain, EncodeChunk;
    var b0: int, b1: int, b2: int := chunk[0], chunk[1], chunk[2];
    ChunkSextets(chunk);
    ThreeBytes(b0, b1, b2);
    var s0, s1, s2, s3 := b0 / 4, b0 % 4 * 16 + b1 / 16, b1 % 16 * 4 + b2 / 64, b2 % 64;
    DrainFour(s0, s1, s2, s3, rest);
    assert EncodeChunk(chunk) + rest
        == [CharOf(s0)] + ([CharOf(s1)] + ([CharOf(s2)] + ([CharOf(s3)] + rest)));
    assert chunk == [b0, b1, b2];
  }

  lemma {:induction false} DrainEmpty(buf: nat, bits: nat)
    requires bits < 8 && buf < Low(bits)
    ensures Drain([], buf, bits) == Some([])
  {
  }

  /** The characters of a short last chunk that are not padding. */
  function TailChars(chunk: seq<Byte>): (cs: seq<Byte>)
    requires |chunk| == 1 || |chunk| == 2
  {
    EncodeChunk(chunk)[..|chunk| + 1]
  }

  lemma {:induction false} DrainTail(chunk: seq<Byte>)
    requires |chunk| == 1 || |chunk| == 2
    ensures Drain(TailChars(chunk), 0, 0) == Some(chunk)
  {
    hide CharOf, ValueOf, Drain, EncodeChunk;
    var b0: int, b1: int := chunk[0], if |chunk| > 1 then chunk[1] else 0;
    ChunkSextets(chunk);
    ThreeBytes(b0, b1, 0);
    var s0, s1, s2 := b0 / 4, b0 % 4 * 16 + b1 / 16, b1 % 16 * 4;
    var t := if |chunk| == 1 then [] else [CharOf(s2)] + [];
    DrainAt0(s0, [CharOf(s1)] + t);
    DrainAt6(s0, s1, t);
    if |chunk| == 1 {
      DrainEmpty(s1 % 16, 4);
      assert [b0] + [] == chunk;
    } else {
      DrainAt4(s1 % 16, s2, []);
      DrainEmpty(s2 % 4, 2);
      assert [b0] + ([b1] + []) == chunk;
    }
    assert TailChars(chunk) == [CharOf(s0)] + ([CharOf(s1)] + t);
  }

  /** Everything but the padding. */
  function Unpadded(bytes: seq<Byte>): (cs: seq<Byte>) {
    if bytes == [] then []
    else if |bytes| < 3 then TailChars(bytes)
    else EncodeChunk(bytes[..3]) + Unpadded(bytes[3..])
  }

  lemma {:induction false} DrainUnpadded(bytes: seq<Byte>)
    ensures Drain(Unpadded(bytes), 0, 0) == Some(bytes)
  {
    hide CharOf, ValueOf, EncodeChunk;
    if bytes == [] {
    } else if |bytes| < 3 {
      DrainTail(bytes);
    } else {
      DrainChunk(bytes[..3], Unpadded(bytes[3..]));
      DrainUnpadded(bytes[3..]);
      assert bytes[..3] + bytes[3..] == bytes;
    }
  }

  predicate AllPad(cs: seq<Byte>) { forall i :: 0 <= i < |cs| ==> cs[i] == PAD }

  lemma {:induction false} ChunkPadding(chunk: seq<Byte>)
    requires 1 <= |chunk| <= 3
    ensures AllPad(EncodeChunk(chunk)[|chunk| + 1..])
    ensures EncodeChunk(chunk)[|chunk|] != PAD
  {
    hide ValueOf;
    ChunkSextets(chunk);
  }

  lemma {:induction false} PaddingAtEnd(bytes: seq<Byte>)
    ensures Unpadded(bytes) <= Base64(bytes) && AllPad(Base64(bytes)[|Unpadded(bytes)|..])
    ensures bytes != [] ==> Unpadded(bytes) != [] && Unpadded(bytes)[|Unpadded(bytes)| - 1] != PAD
  {
    hide CharOf, ValueOf, EncodeChunk;
    if bytes == [] {
    } else if |bytes| < 3 {
      ChunkPadding(bytes);
    } else {
      ChunkPadding(bytes[..3]);
      PaddingAtEnd(bytes[3..]);
      Base64Unfold(bytes);
      var head, tail := EncodeChunk(bytes[..3]), Base64(bytes[3..]);
      assert (head + tail)[4 + |Unpadded(bytes[3..])|..] == tail[|Unpadded(bytes[3..])|..];
    }
  }

  lemma {:induction false} Base64Unfold(bytes: seq<Byte>)
    requires |bytes| >= 3
    ensures Base64(bytes) == EncodeChunk(bytes[..3]) + Base64(bytes[3..])
  {
    if |bytes| == 3 {
      assert bytes[..3] == bytes && bytes[3..] == [];
      assert EncodeChunk(bytes) + [] == EncodeChunk(bytes);
    }
  }

  lemma {:induction false} TrimPadding(body: seq<Byte>, pads: seq<Byte>)
    requires AllPad(pads) && (body != [] ==> body[|body| - 1] != PAD)
    ensures TrimPad(body + pads) == body
  {
    if pads == [] {
      assert body + pads == body;
    } else {
      assert (body + pads)[..|body + pads| - 1] == body + pads[..|pads| - 1];
      TrimPadding(body, pads[..|pads| - 1]);
    }
  }

  /** Base64 round trip, for all bytes. */
  lemma {:induction false} Base64RoundTrip(bytes: seq<Byte>)
    ensures Unbase64(Base64(bytes)) == Some(bytes)
  {
    PaddingAtEnd(bytes);
    var body := Unpadded(bytes);
    assert Base64(bytes) == body + Base64(bytes)[|body|..];
    TrimPadding(body, Base64(bytes)[|body|..]);
    DrainUnpadded(bytes);
  }

  /** Encoded text is ASCII, hence valid UTF-8, and empty only for no bytes. */
  lemma {:induction false} Base64IsText(bytes: seq<Byte>)
    ensures ValidUtf8(Base64(bytes))
    ensures Base64(bytes) == [] <==> bytes == []
  {
    AsciiIsUtf8(Base64(bytes));
  }

  /** The sextets of a chunk, from its bytes. */
  lemma {:induction false} ChunkSextets(chunk: seq<Byte>)
    requires 1 <= |chunk| <= 3
    ensures var b0: int := chunk[0];
            var b1: int := if |chunk| > 1 then chunk[1] else 0;
            var b2: int := if |chunk| > 2 then chunk[2] else 0;
            var cs := EncodeChunk(chunk);
            && cs[0] == CharOf(b0 / 4) && cs[1] == CharOf(b0 % 4 * 16 + b1 / 16)
            && (|chunk| > 1 ==> cs[2] == CharOf(b1 % 16 * 4 + b2 / 64))
            && (|chunk| > 2 ==> cs[3] == CharOf(b2 % 64))
            && (|chunk| <= 1 ==> cs[2] == PAD) && (|chunk| <= 2 ==> cs[3] == PAD)
  {
    hide CharOf, ValueOf;
    var b0: int := chunk[0];
    var b1: int := if |chunk| > 1 then chunk[1] else 0;
    var b2: int := if |chunk| > 2 then chunk[2] else 0;
    TripleParts(b0, b1, b2);
  }

  lemma {:induction false} TripleParts(b0: int, b1: int, b2: int)
    requires 0 <= b0 < 256 && 0 <= b1 < 256 && 0 <= b2 < 256
    ensures var t := 0x1_0000 * b0 + 0x100 * b1 + b2;
            && t / 0x4_0000 == b0 / 4 && t / 0x1000 % 64 == b0 % 4 * 16 + b1 / 16
            && t / 64 % 64 == b1 % 16 * 4 + b2 / 64 && t % 64 == b2 % 64
  {
    Parts(b0 / 4, b0 % 4, b1 / 16, b1 % 16, b2 / 64, b2 % 64);
    assert b0 == 4 * (b0 / 4) + b0 % 4;
    assert b1 == 16 * (b1 / 16) + b1 % 16;
    assert b2 == 64 * (b2 / 64) + b2 % 64;
  }

  /** The same, on the bit groups themselves. */
  lemma {:induction false} Parts(p: int, q: int, r: int, s: int, u: int, w: int)
    requires 0 <= p < 64 && 0 <= q < 4 && 0 <= r < 16 && 0 <= s < 16 && 0 <= u < 4 && 0 <= w < 64
    ensures var t := 0x4_0000 * p + 0x1_0000 * q + 0x1000 * r + 0x100 * s + 64 * u + w;
            && t / 0x4_0000 == p && t / 0x1000 % 64 == 16 * q + r
            && t / 64 % 64 == 4 * s + u && t % 64 == w
  {
    var t := 0x4_0000 * p + 0x1_0000 * q + 0x1000 * r + 0x100 * s + 64 * u + w;
    assert t / 0x1000 == 64 * p + (16 * q + r) by { assert t == 0x1000 * (64 * p + (16 * q + r)) + (0x100 * s + 64 * u + w); }
    assert t / 64 == 64 * (64 * p + (16 * q + r)) + (4 * s + u);
  }

  // ---- against the letter of RFC 4648 ----

  /** ASCII text as bytes. */
  function Ascii(s: string): (bs: seq<Byte>)
    requires forall i :: 0 <= i < |s| ==> s[i] < '\U{0080}'
    ensures |bs| == |s|
  {
    seq(|s|, i requires 0 <= i < |s| => s[i] as int)
  }

  /** Table 1 of RFC 4648: the capitals, the small letters, the digits, plus and slash. */
  lemma {:induction false} Alphabet(v: Sextet)
    ensures v < 26 ==> CharOf(v) == 'A' as int + v
    ensures 26 <= v < 52 ==> CharOf(v) == 'a' as int + (v - 26)
    ensures 52 <= v < 62 ==> CharOf(v) == '0' as int + (v - 52)
    ensures CharOf(62) == '+' as int && CharOf(63) == '/' as int
  {
  }

  /** Test vectors of section 10 of RFC 4648: both paddings, and none. */
  lemma {:induction false} Vectors()
    ensures Base64(Ascii("f")) == Ascii("Zg==") && Base64(Ascii("fo")) == Ascii("Zm8=") && Base64(Ascii("foo")) == Ascii("Zm9v")
  {
    hide CharOf, ValueOf, EncodeChunk;
    VectorChunk("f");
    VectorChunk("fo");
    VectorChunk("foo");
    Alphabet(25);
    Alphabet(32);
    Alphabet(38);
    Alphabet(60);
    Alphabet(61);
    Alphabet(47);
  }

  lemma {:induction false} VectorChunk(s: string)
    requires s == "f" || s == "fo" || s == "foo"
    ensures Base64(Ascii(s)) == EncodeChunk(Ascii(s))
    ensures var cs := EncodeChunk(Ascii(s));
            && cs[0] == CharOf(25) && cs[1] == CharOf(if s == "f" then 32 else 38)
            && cs[2] == (if s == "f" then PAD else if s == "fo" then CharOf(60) else CharOf(61))
            && cs[3] == if s == "foo" then CharOf(47) else PAD
  {
    hide CharOf, ValueOf, EncodeChunk;
    ChunkSextets(Ascii(s));
  }

  lemma {:induction false} Base64Length(bytes: seq<Byte>)
    ensures |Base64(bytes)| == 4 * ((|bytes| + 2) / 3)
  {
    hide EncodeChunk;
    if |bytes| > 3 { Base64Length(bytes[3..]); }
  }

  predicate InAlphabet(c: Byte) {
    'A' as int <= c <= 'Z' as int || 'a' as int <= c <= 'z' as int || '0' as int <= c <= '9' as int
    || c == '+' as int || c == '/' as int
  }

  lemma {:induction false} ValueIff(c: Byte)
    ensures ValueOf(c).Some? <==> InAlphabet(c)
  {
  }

  /** Decoding fails on exactly the texts that hold a foreign character before the padding. */
  lemma {:induction false} Unbase64Fails(cs: seq<Byte>)
    ensures Unbase64(cs).None? <==> exists i :: 0 <= i < |TrimPad(cs)| && !InAlphabet(TrimPad(cs)[i])
  {
    hide InAlphabet;
    Lows();
    DrainFails(TrimPad(cs), 0, 0);
  }

  lemma {:induction false} DrainFails(cs: seq<Byte>, buf: nat, bits: nat)
    requires bits < 8 && buf < Low(bits)
    ensures Drain(cs, buf, bits).None? <==> exists i :: 0 <= i < |cs| && !InAlphabet(cs[i])
    decreases |cs|
  {
    hide InAlphabet, ValueOf;
    if cs != [] {
      ValueIff(cs[0]);
      assert forall i :: 1 <= i < |cs| ==> cs[i] == cs[1..][i - 1];
      if ValueOf(cs[0]).Some? {
        var acc, n := 64 * buf + ValueOf(cs[0]).value, bits + 6;
        LowSix(buf, bits);
        if n < 8 { DrainFails(cs[1..], acc, n); } else { DrainFails(cs[1..], acc % Low(n - 8), n - 8); }
        if i :| 0 <= i < |cs[1..]| && !InAlphabet(cs[1..][i]) { assert !InAlphabet(cs[i + 1]); }
      }
    }
  }

  // ---- grpc-message percent-encoding (typeway-grpc/src/status.rs) ----

  const PERCENT: Byte := 37

  /** An upper-case hexadecimal digit. */
  function HexChar(d: int): (c: Byte)
    requires 0 <= d < 16
  {
    if d < 10 then d + 48 else d + 55
  }

  /** `to_digit(16)`: both cases are accepted. */
  function HexValue(c: Byte): (d: Option<int>)
    ensures d.Some? ==> 0 <= d.value < 16
  {
    if 48 <= c <= 57 then Some(c - 48)
    else if 65 <= c <= 70 then Some(c - 55)
    else if 97 <= c <= 102 then Some(c - 87)
    else None
  }

  predicate IsPlain(b: Byte) { 0x20 <= b <= 0x7E && b != PERCENT }

  function EscapeByte(b: Byte): (cs: seq<Byte>) {
    if IsPlain(b) then [b] else [PERCENT, HexChar(b / 16), HexChar(b % 16)]
  }

  function PercentEncode(message: seq<Byte>): (cs: seq<Byte>) {
    if message == [] then [] else EscapeByte(message[0]) + PercentEncode(message[1..])
  }

  method EncodeGrpcMessage(message: seq<Byte>) returns (out: seq<Byte>)
    ensures out == PercentEncode(message)
  {
    out := [];
    assert message[0..] == message;
    for i := 0 to |message|
      invariant out + PercentEncode(message[i..]) == PercentEncode(message)
    {
      assert message[i..][0] == message[i] && message[i..][1..] == message[i + 1..];
      out := out + EscapeByte(message[i]);
    }
  }

  /** Well-formed escapes replaced, everything else copied. */
  function PercentBytes(cs: seq<Byte>): (bs: seq<Byte>)
    decreases |cs|
  {
    if cs == [] then []
    else if cs[0] == PERCENT && 2 < |cs| && HexValue(cs[1]).Some? && HexValue(cs[2]).Some? then
      [HexValue(cs[1]).value * 16 + HexValue(cs[2]).value] + PercentBytes(cs[3..])
    else [cs[0]] + PercentBytes(cs[1..])
  }

  /** Invalid UTF-8 after unescaping falls back to the raw header text. */
  function PercentDecode(cs: seq<Byte>): (message: seq<Byte>) {
    if ValidUtf8(PercentBytes(cs)) then PercentBytes(cs) else cs
  }

  /** One turn of the decoding loop at an absolute index. */
  lemma {:induction false} PercentTurn(message: seq<Byte>, i: nat)
    requires i < |message|
    ensures
      if message[i] == PERCENT && i + 2 < |message| && HexValue(message[i + 1]).Some? && HexValue(message[i + 2]).Some?
      then PercentBytes(message[i..])
        == [HexValue(message[i + 1]).value * 16 + HexValue(message[i + 2]).value] + PercentBytes(message[i + 3..])
      else PercentBytes(message[i..]) == [message[i]] + PercentBytes(message[i + 1..])
  {
    hide HexValue;
    var rest := message[i..];
    assert rest[1..] == message[i + 1..];
    if i + 2 < |message| { assert rest[3..] == message[i + 3..]; }
  }

  method DecodeGrpcMessage(message: seq<Byte>) returns (r: seq<Byte>)
    ensures r == PercentDecode(message)
  {
    hide ValidUtf8, HexValue, PercentBytes;
    var out: seq<Byte>, i := [], 0;
    assert message[0..] == message;
    while i < |message|
      invariant i <= |message|
      invariant out + PercentBytes(message[i..]) == PercentBytes(message)
      decreases |message| - i
    {
      PercentTurn(message, i);
      if message[i] == PERCENT && i + 2 < |message| {
        var hi, lo := HexValue(message[i + 1]), HexValue(message[i + 2]);
        if hi.Some? && lo.Some? {
          out := out + [hi.value * 16 + lo.value];
          i := i + 3;
          continue;
        }
      }
      out := out + [message[i]];
      i := i + 1;
    }
    NoPercent();
    assert message[i..] == [] && out + [] == out;
    r := if ValidUtf8(out) then out else message;
  }

  lemma {:induction false} NoPercent()
    ensures PercentBytes([]) == []
  {
  }

  lemma {:induction false} UnescapeByte(b: Byte, rest: seq<Byte>)
    ensures PercentBytes(EscapeByte(b) + rest) == [b] + PercentBytes(rest)
  {
    var cs := EscapeByte(b) + rest;
    if IsPlain(b) { assert cs[1..] == rest; } else { assert cs[3..] == rest; }
  }

  lemma {:induction false} PercentBytesInvert(message: seq<Byte>)
    ensures PercentBytes(PercentEncode(message)) == message
  {
    if message != [] {
      UnescapeByte(message[0], PercentEncode(message[1..]));
      PercentBytesInvert(message[1..]);
      assert message == [message[0]] + message[1..];
    }
  }

  /** Every status message survives the header, whose text is printable ASCII. */
  lemma {:induction false} PercentRoundTrip(message: seq<Byte>)
    requires ValidUtf8(message)
    ensures PercentDecode(PercentEncode(message)) == message
  {
    PercentBytesInvert(message);
  }

  lemma {:induction false} PercentIsPrintable(message: seq<Byte>)
    ensures forall i :: 0 <= i < |PercentEncode(message)| ==> 0x20 <= PercentEncode(message)[i] <= 0x7E
  {
    if message != [] { PercentIsPrintable(message[1..]); }
  }

  const UPPER := "0123456789ABCDEF"

  const LOWER := "0123456789abcdef"

  /** Digits are written in upper case and read in both (section 2.1 of RFC 3986). */
  lemma {:induction false} HexDigits(d: int)
    requires 0 <= d < 16
    ensures HexChar(d) == UPPER[d] as int
    ensures HexValue(UPPER[d] as int) == Some(d) && HexValue(LOWER[d] as int) == Some(d)
  {
  }

  /** One byte of a message: itself if it is printable and not the percent sign, else three characters. */
  lemma {:induction false} EscapeLayout(message: seq<Byte>)
    requires message != []
    ensures var b: int := message[0];
            PercentEncode(message)
            == (if 0x20 <= b <= 0x7E && b != '%' as int then [message[0]]
                else ['%' as int, UPPER[b / 16] as int, UPPER[b % 16] as int]) + PercentEncode(message[1..])
  {
    HexDigits(message[0] / 16);
    HexDigits(message[0] % 16);
  }

  /** A percent sign with two hexadecimal digits behind it, in either case. */
  predicate EscapeAt(cs: seq<Byte>, i: nat) {
    && i + 2 < |cs| && cs[i] == '%' as int
    && (exists d :: 0 <= d < 16 && (cs[i + 1] == UPPER[d] as int || cs[i + 1] == LOWER[d] as int))
    && (exists d :: 0 <= d < 16 && (cs[i + 2] == UPPER[d] as int || cs[i + 2] == LOWER[d] as int))
  }

  lemma {:induction false} HexIff(c: Byte)
    ensures HexValue(c).Some? <==> exists d :: 0 <= d < 16 && (c == UPPER[d] as int || c == LOWER[d] as int)
  {
    if HexValue(c).Some? {
      var d := HexValue(c).value;
      assert c == UPPER[d] as int || c == LOWER[d] as int;
    }
    if d :| 0 <= d < 16 && (c == UPPER[d] as int || c == LOWER[d] as int) { HexDigits(d); }
  }

  /** A text without such an escape is a message as it stands, stray percent signs included. */
  lemma {:induction false} NothingToUnescape(cs: seq<Byte>)
    requires forall i :: 0 <= i < |cs| ==> !EscapeAt(cs, i)
    ensures PercentBytes(cs) == cs && PercentDecode(cs) == cs
  {
    hide HexValue;
    if cs != [] {
      assert !EscapeAt(cs, 0);
      if 2 < |cs| {
        HexIff(cs[1]);
        HexIff(cs[2]);
      }
      forall i | 0 <= i < |cs[1..]| ensures !EscapeAt(cs[1..], i) { NoEscapeLater(cs, i); }
      NothingToUnescape(cs[1..]);
      assert [cs[0]] + cs[1..] == cs;
    }
  }

  lemma {:induction false} NoEscapeLater(cs: seq<Byte>, i: nat)
    requires cs != [] && i + 1 < |cs| && !EscapeAt(cs, i + 1)
    ensures !EscapeAt(cs[1..], i)
  {
  }

  /** Escapes that do not come to UTF-8 leave the header text as it is. */
  lemma {:induction false} BadUtf8Stays()
    ensures PercentDecode(Ascii("%ff")) == Ascii("%ff") && PercentDecode(Ascii("%41")) == Ascii("A")
  {
    var bad, good := Ascii("%ff"), Ascii("%41");
    assert bad[3..] == [] && good[3..] == [];
    assert PercentBytes(bad) == [0xFF] && PercentBytes(good) == [0x41];
    assert [0x41][1..] == [];
  }
}
