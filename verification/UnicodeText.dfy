/** Valid UTF-8 is what encoding characters gives (RFC 3629). */
module UnicodeText {
  // Source: typeway-grpc/src/proto_codec.rs, typeway-macros/src/lib.rs (`String::from_utf8`)

  import opened Bytes

  type Scalar = n: int | 0 <= n < 0xD800 || 0xE000 <= n < 0x11_0000

  /** Section 3: one to four bytes for a character number. */
  function Utf8Of(n: Scalar): (bs: seq<Byte>) {
    if n < 0x80 then [n]
    else if n < 0x800 then [0xC0 + n / 0x40, 0x80 + n % 0x40]
    else if n < 0x1_0000 then [0xE0 + n / 0x1000, 0x80 + n / 0x40 % 0x40, 0x80 + n % 0x40]
    else [0xF0 + n / 0x4_0000, 0x80 + n / 0x1000 % 0x40, 0x80 + n / 0x40 % 0x40, 0x80 + n % 0x40]
  }

  function Utf8All(ns: seq<Scalar>): (bs: seq<Byte>) { if ns == [] then [] else Utf8Of(ns[0]) + Utf8All(ns[1..]) }

  lemma {:induction false} EncodedStep(n: Scalar, rest: seq<Byte>)
    ensures ValidUtf8(Utf8Of(n) + rest) <==> ValidUtf8(rest)
  {
    var bs := Utf8Of(n) + rest;
    assert bs[|Utf8Of(n)|..] == rest;
  }

  lemma {:induction false} EncodedIsValid(ns: seq<Scalar>)
    ensures ValidUtf8(Utf8All(ns))
  {
    hide Utf8Of;
    if ns != [] {
      EncodedIsValid(ns[1..]);
      EncodedStep(ns[0], Utf8All(ns[1..]));
    }
  }

  lemma {:induction false} TwoBytes(b: int, c: int) returns (n: Scalar)
    requires 0xC2 <= b <= 0xDF && 0x80 <= c <= 0xBF
    ensures Utf8Of(n) == [b, c]
  {
    n := (b - 0xC0) * 0x40 + (c - 0x80);
  }

  lemma {:induction false} ThreeBytes(b: int, c: int, d: int) returns (n: Scalar)
    requires 0xE0 <= b <= 0xEF && 0x80 <= c <= 0xBF && 0x80 <= d <= 0xBF
    requires (b == 0xE0 ==> c >= 0xA0) && (b == 0xED ==> c <= 0x9F)
    ensures Utf8Of(n) == [b, c, d]
  {
    n := (b - 0xE0) * 0x1000 + (c - 0x80) * 0x40 + (d - 0x80);
    assert n / 0x1000 == b - 0xE0 && n / 0x40 == (b - 0xE0) * 0x40 + (c - 0x80);
  }

  lemma {:induction false} FourBytes(b: int, c: int, d: int, e: int) returns (n: Scalar)
    requires 0xF0 <= b <= 0xF4 && 0x80 <= c <= 0xBF && 0x80 <= d <= 0xBF && 0x80 <= e <= 0xBF
    requires (b == 0xF0 ==> c >= 0x90) && (b == 0xF4 ==> c <= 0x8F)
    ensures Utf8Of(n) == [b, c, d, e]
  {
    n := (b - 0xF0) * 0x4_0000 + (c - 0x80) * 0x1000 + (d - 0x80) * 0x40 + (e - 0x80);
    assert n / 0x4_0000 == b - 0xF0 && n / 0x1000 == (b - 0xF0) * 0x40 + (c - 0x80);
    assert n / 0x40 == ((b - 0xF0) * 0x40 + (c - 0x80)) * 0x40 + (d - 0x80);
  }

  /** The character a valid text begins with. */
  lemma {:induction false} FirstCharacter(bs: seq<Byte>) returns (n: Scalar, rest: seq<Byte>)
    requires bs != [] && ValidUtf8(bs)
    ensures bs == Utf8Of(n) + rest && ValidUtf8(rest)
  {
    hide Utf8Of;
    if bs[0] < 0x80 {
      OneByte(bs[0]);
      n, rest := bs[0], bs[1..];
    } else if bs[0] < 0xE0 {
      n := TwoBytes(bs[0], bs[1]);
      rest := bs[2..];
    } else if bs[0] < 0xF0 {
      n := ThreeBytes(bs[0], bs[1], bs[2]);
      rest := bs[3..];
    } else {
      n := FourBytes(bs[0], bs[1], bs[2], bs[3]);
      rest := bs[4..];
    }
  }

  lemma {:induction false} OneByte(n: Scalar)
    requires n < 0x80
    ensures Utf8Of(n) == [n]
  {
  }

  lemma {:induction false} ValidIsEncoded(bs: seq<Byte>) returns (ns: seq<Scalar>)
    requires ValidUtf8(bs)
    ensures bs == Utf8All(ns)
    decreases |bs|
  {
    hide Utf8Of, ValidUtf8;
    if bs == [] {
      ns := [];
    } else {
      var n, rest := FirstCharacter(bs);
      NotEmpty(n);
      var more := ValidIsEncoded(rest);
      ns := [n] + more;
      assert ns[1..] == more;
    }
  }

  lemma {:induction false} NotEmpty(n: Scalar)
    ensures Utf8Of(n) != []
  {
  }

  /** A byte string is accepted as text exactly when it is the encoding of some characters. */
  lemma {:induction false} TextIff(bs: seq<Byte>)
    ensures ValidUtf8(bs) <==> exists ns :: bs == Utf8All(ns)
  {
    hide ValidUtf8, Utf8All;
    if ValidUtf8(bs) {
      var ns := ValidIsEncoded(bs);
      assert bs == Utf8All(ns);
    }
    if ns :| bs == Utf8All(ns) { EncodedIsValid(ns); }
  }
}
