/** The UTF-8 encoder and validator, on bit vectors, against a decoder that follows
    RFC 3629 (sections 3 and 4). */
module Utf8 {
  import opened Options

  type Byte = bv8
  type CodePoint = bv32

  const MAX_1: CodePoint := 0x7F
  const MAX_2: CodePoint := 0x7FF
  const MAX_3: CodePoint := 0xFFFF
  const MAX_4: CodePoint := 0x1F_FFFF

  /** A Unicode scalar value: in range and not a surrogate. */
  predicate IsScalar(c: CodePoint) {
    c <= 0x10_FFFF && !(0xD800 <= c <= 0xDFFF)
  }

  // ---- Encoding ----

  function Trail(c: CodePoint): Byte {
    (0x80 | (c & 0x3F)) as Byte
  }

  function Lead2(c: CodePoint): Byte
    requires c <= MAX_2
  {
    (0xC0 | (c >> 6)) as Byte
  }

  function Lead3(c: CodePoint): Byte
    requires c <= MAX_3
  {
    (0xE0 | (c >> 12)) as Byte
  }

  function Lead4(c: CodePoint): Byte
    requires c <= MAX_4
  {
    (0xF0 | (c >> 18)) as Byte
  }

  /** The byte pattern of a code point of at most 21 bits. */
  function Encode(c: CodePoint): (r: seq<Byte>)
    requires c <= MAX_4
    ensures 1 <= |r| <= 4
  {
    if c <= MAX_1 then [c as Byte]
    else if c <= MAX_2 then [Lead2(c), Trail(c)]
    else if c <= MAX_3 then [Lead3(c), Trail(c >> 6), Trail(c)]
    else [Lead4(c), Trail(c >> 12), Trail(c >> 6), Trail(c)]
  }

  predicate Encodable(cs: seq<CodePoint>) {
    forall i | 0 <= i < |cs| :: cs[i] <= MAX_4
  }

  function EncodeAll(cs: seq<CodePoint>): seq<Byte>
    requires Encodable(cs)
  {
    if cs == [] then [] else Encode(cs[0]) + EncodeAll(cs[1..])
  }

  // ---- Decoding ----

  predicate IsTrail(b: Byte) {
    0x80 <= b <= 0xBF
  }

  function Bits(b: Byte): CodePoint {
    (b as CodePoint) & 0x3F
  }

  function Join2(a: Byte, b: Byte): CodePoint {
    ((a as CodePoint & 0x1F) << 6) | Bits(b)
  }

  function Join3(a: Byte, b: Byte, c: Byte): CodePoint {
    ((a as CodePoint & 0x0F) << 12) | (Bits(b) << 6) | Bits(c)
  }

  function Join4(a: Byte, b: Byte, c: Byte, d: Byte): CodePoint {
    ((a as CodePoint & 0x07) << 18) | (Bits(b) << 12) | (Bits(c) << 6) | Bits(d)
  }

  /** A character of two, three or four bytes, in the shortest form and a scalar value. */
  function Decode2(s: seq<Byte>): Option<(CodePoint, nat)>
    requires s != []
  {
    if |s| >= 2 && IsTrail(s[1]) && Join2(s[0], s[1]) > MAX_1 then Some((Join2(s[0], s[1]), 2)) else None
  }

  function Decode3(s: seq<Byte>): Option<(CodePoint, nat)>
    requires s != []
  {
    if |s| >= 3 && IsTrail(s[1]) && IsTrail(s[2]) &&
       Join3(s[0], s[1], s[2]) > MAX_2 && IsScalar(Join3(s[0], s[1], s[2]))
    then Some((Join3(s[0], s[1], s[2]), 3)) else None
  }

  function Decode4(s: seq<Byte>): Option<(CodePoint, nat)>
    requires s != []
  {
    if |s| >= 4 && IsTrail(s[1]) && IsTrail(s[2]) && IsTrail(s[3]) &&
       Join4(s[0], s[1], s[2], s[3]) > MAX_3 && IsScalar(Join4(s[0], s[1], s[2], s[3]))
    then Some((Join4(s[0], s[1], s[2], s[3]), 4)) else None
  }

  /** The first character: its code point and its length. */
  function DecodeOne(s: seq<Byte>): (r: Option<(CodePoint, nat)>)
    ensures r.Some? ==> 1 <= r.value.1 <= 4 && r.value.1 <= |s|
  {
    if s == [] then None
    else if s[0] <= 0x7F then Some((s[0] as CodePoint, 1))
    else if s[0] & 0xE0 == 0xC0 then Decode2(s)
    else if s[0] & 0xF0 == 0xE0 then Decode3(s)
    else if s[0] & 0xF8 == 0xF0 then Decode4(s)
    else None
  }

  function Decode(s: seq<Byte>): Option<seq<CodePoint>> {
    if s == [] then Some([]) else
    var first := DecodeOne(s);
    if first.None? then None else
    var rest := Decode(s[first.value.1..]);
    if rest.None? then None else Some([first.value.0] + rest.value)
  }

  ghost predicate AllScalar(cs: seq<CodePoint>) {
    forall i | 0 <= i < |cs| :: IsScalar(cs[i])
  }

  // ---- Encoding and decoding are inverse ----

  lemma Split2(c: CodePoint)
    requires MAX_1 < c <= MAX_2
    ensures Lead2(c) > 0x7F && Lead2(c) & 0xE0 == 0xC0
    ensures IsTrail(Trail(c)) && Join2(Lead2(c), Trail(c)) == c
  {
  }

  lemma Split3(c: CodePoint)
    requires MAX_2 < c <= MAX_3
    ensures Lead3(c) > 0x7F && Lead3(c) & 0xE0 != 0xC0 && Lead3(c) & 0xF0 == 0xE0
    ensures IsTrail(Trail(c >> 6)) && IsTrail(Trail(c)) && Join3(Lead3(c), Trail(c >> 6), Trail(c)) == c
  {
  }

  lemma Split4(c: CodePoint)
    requires MAX_3 < c <= MAX_4
    ensures Lead4(c) > 0x7F && Lead4(c) & 0xE0 != 0xC0 && Lead4(c) & 0xF0 != 0xE0 && Lead4(c) & 0xF8 == 0xF0
    ensures IsTrail(Trail(c >> 12)) && IsTrail(Trail(c >> 6)) && IsTrail(Trail(c))
    ensures Join4(Lead4(c), Trail(c >> 12), Trail(c >> 6), Trail(c)) == c
  {
  }

  lemma Rejoin2(a: Byte, b: Byte)
    requires a & 0xE0 == 0xC0 && IsTrail(b)
    ensures var c := Join2(a, b); c <= MAX_2 && Lead2(c) == a && Trail(c) == b
  {
  }

  lemma Rejoin3(a: Byte, b: Byte, d: Byte)
    requires a & 0xF0 == 0xE0 && IsTrail(b) && IsTrail(d)
    ensures var c := Join3(a, b, d); c <= MAX_3 && Lead3(c) == a && Trail(c >> 6) == b && Trail(c) == d
  {
  }

  lemma Rejoin4(a: Byte, b: Byte, d: Byte, e: Byte)
    requires a & 0xF8 == 0xF0 && IsTrail(b) && IsTrail(d) && IsTrail(e)
    ensures var c := Join4(a, b, d, e);
            c <= MAX_4 && Lead4(c) == a && Trail(c >> 12) == b && Trail(c >> 6) == d && Trail(c) == e
  {
  }

  lemma DecodeEncodedOne(c: CodePoint, tail: seq<Byte>)
    requires IsScalar(c)
    ensures DecodeOne(Encode(c) + tail) == Some((c, |Encode(c)|))
  {
    if MAX_1 < c <= MAX_2 {
      Split2(c);
    } else if MAX_2 < c <= MAX_3 {
      Split3(c);
    } else if MAX_3 < c {
      Split4(c);
    }
  }

  lemma EncodeDecoded1(s: seq<Byte>)
    requires s != [] && s[0] <= 0x7F
    ensures var c := s[0] as CodePoint; IsScalar(c) && Encode(c) == s[..1]
  {
  }

  lemma EncodeDecoded2(s: seq<Byte>)
    requires s != [] && s[0] & 0xE0 == 0xC0 && Decode2(s).Some?
    ensures var c := Decode2(s).value.0; IsScalar(c) && Encode(c) == s[..2]
  {
    Rejoin2(s[0], s[1]);
  }

  lemma EncodeDecoded3(s: seq<Byte>)
    requires s != [] && s[0] & 0xF0 == 0xE0 && Decode3(s).Some?
    ensures var c := Decode3(s).value.0; IsScalar(c) && Encode(c) == s[..3]
  {
    Rejoin3(s[0], s[1], s[2]);
  }

  lemma EncodeDecoded4(s: seq<Byte>)
    requires s != [] && s[0] & 0xF8 == 0xF0 && Decode4(s).Some?
    ensures var c := Decode4(s).value.0; IsScalar(c) && Encode(c) == s[..4]
  {
    Rejoin4(s[0], s[1], s[2], s[3]);
  }

  lemma EncodeDecodedOne(s: seq<Byte>)
    requires DecodeOne(s).Some?
    ensures var (c, n) := DecodeOne(s).value; IsScalar(c) && Encode(c) == s[..n]
  {
    if s[0] <= 0x7F {
      EncodeDecoded1(s);
    } else if s[0] & 0xE0 == 0xC0 {
      EncodeDecoded2(s);
    } else if s[0] & 0xF0 == 0xE0 {
      EncodeDecoded3(s);
    } else {
      EncodeDecoded4(s);
    }
  }

  /** The encoder takes 21 bits, more than Unicode has: what it makes of a surrogate or
      of a code point above U+10FFFF is not UTF-8. */
  lemma DecodableIffScalar(c: CodePoint)
    requires c <= MAX_4
    ensures Decode(Encode(c)).Some? <==> IsScalar(c)
  {
    assert Encode(c) + [] == Encode(c);
    if IsScalar(c) {
      DecodeEncodedOne(c, []);
      assert Encode(c)[|Encode(c)|..] == [];
    } else {
      OutOfRange(c);
      if c <= MAX_3 {
        Split3(c);
      } else {
        Split4(c);
      }
    }
  }

  lemma OutOfRange(c: CodePoint)
    requires !IsScalar(c)
    ensures c > MAX_2
  {
  }

  /** Decoding what was encoded gives back the text ... */
  lemma {:induction false} DecodeEncoded(cs: seq<CodePoint>)
    requires AllScalar(cs)
    ensures Decode(EncodeAll(cs)) == Some(cs)
  {
    if cs != [] {
      var tail := EncodeAll(cs[1..]);
      DecodeEncodedOne(cs[0], tail);
      assert (Encode(cs[0]) + tail)[|Encode(cs[0])|..] == tail;
      DecodeEncoded(cs[1..]);
      assert [cs[0]] + cs[1..] == cs;
    }
  }

  lemma EncodeAllCons(c: CodePoint, rest: seq<CodePoint>)
    requires IsScalar(c) && AllScalar(rest)
    ensures AllScalar([c] + rest) && EncodeAll([c] + rest) == Encode(c) + EncodeAll(rest)
  {
    assert ([c] + rest)[1..] == rest;
  }

  /** ... and everything that can be decoded was encoded from scalar values. */
  lemma {:induction false} EncodeDecoded(s: seq<Byte>)
    requires Decode(s).Some?
    ensures AllScalar(Decode(s).value) && EncodeAll(Decode(s).value) == s
  {
    if s != [] {
      var (c, n) := DecodeOne(s).value;
      EncodeDecodedOne(s);
      EncodeDecoded(s[n..]);
      EncodeAllCons(c, Decode(s[n..]).value);
      assert s == s[..n] + s[n..];
    }
  }

  // ---- The encoder ----

  /** The n lowest bits, and what is left of the pattern. */
  method ChopLowBits(bits: CodePoint, n: bv6) returns (low: CodePoint, rest: CodePoint)
    requires n < 32
    ensures low == bits & ((1 << n) - 1) && rest == bits >> n
  {
    low := bits & ((1 << n) - 1);
    rest := bits >> n;
  }

  /** One trail byte from the six lowest bits. */
  method ChopTrail(bits: CodePoint) returns (trail: Byte, rest: CodePoint)
    ensures trail == Trail(bits) && rest == bits >> 6
  {
    var low;
    low, rest := ChopLowBits(bits, 6);
    trail := (0x80 | low) as Byte;
  }

  /** The bytes before the first NUL. */
  function CString(s: seq<Byte>): seq<Byte> {
    if s == [] || s[0] == 0 then [] else [s[0]] + CString(s[1..])
  }

  lemma {:induction false} CStringIs(s: seq<Byte>, n: nat)
    requires n < |s| && s[n] == 0 && forall i | 0 <= i < n :: s[i] != 0
    ensures CString(s) == s[..n]
  {
    if n > 0 {
      CStringIs(s[1..], n - 1);
      assert s[..n] == [s[0]] + s[1..][..n - 1];
    }
  }

  lemma EncodedNonzero(c: CodePoint)
    requires 0 < c <= MAX_4
    ensures forall i | 0 <= i < |Encode(c)| :: Encode(c)[i] != 0
  {
  }

  lemma Leads(c: CodePoint)
    ensures c <= MAX_2 ==> 0xC0 | (c >> 6) <= 0xFF
    ensures c <= MAX_3 ==> 0xE0 | (c >> 6 >> 6) <= 0xFF && (0xE0 | (c >> 6 >> 6)) as Byte == Lead3(c)
  {
  }

  lemma Leads4(c: CodePoint)
    requires c <= MAX_4
    ensures 0xF0 | (c >> 6 >> 6 >> 6) <= 0xFF && (0xF0 | (c >> 6 >> 6 >> 6)) as Byte == Lead4(c)
    ensures Trail(c >> 6 >> 6) == Trail(c >> 12)
  {
  }

  /** The bytes of a multi-byte pattern, from the last to the first. */
  method Fill2(codePoint: CodePoint, str: array<Byte>)
    requires MAX_1 < codePoint <= MAX_2 && str.Length == 5
    modifies str
    ensures str[2] == 0 && str[..2] == Encode(codePoint)
  {
    Leads(codePoint);
    str[2] := 0;
    var c, trail := codePoint, 0;
    trail, c := ChopTrail(c);
    str[1] := trail;
    str[0] := (0xC0 | c) as Byte;
  }

  method Fill3(codePoint: CodePoint, str: array<Byte>)
    requires MAX_2 < codePoint <= MAX_3 && str.Length == 5
    modifies str
    ensures str[3] == 0 && str[..3] == Encode(codePoint)
  {
    Leads(codePoint);
    str[3] := 0;
    var c, trail := codePoint, 0;
    trail, c := ChopTrail(c);
    str[2] := trail;
    trail, c := ChopTrail(c);
    str[1] := trail;
    str[0] := (0xE0 | c) as Byte;
  }

  method Fill4(codePoint: CodePoint, str: array<Byte>)
    requires MAX_3 < codePoint <= MAX_4 && str.Length == 5
    modifies str
    ensures str[4] == 0 && str[..4] == Encode(codePoint)
  {
    Leads4(codePoint);
    str[4] := 0;
    var c, trail := codePoint, 0;
    trail, c := ChopTrail(c);
    str[3] := trail;
    trail, c := ChopTrail(c);
    str[2] := trail;
    trail, c := ChopTrail(c);
    str[1] := trail;
    str[0] := (0xF0 | c) as Byte;
  }

  /** An upper-case hexadecimal digit. */
  function HexDigit(d: CodePoint): Byte
    requires d < 16
  {
    (if d < 10 then 0x30 + d else 0x37 + d) as Byte
  }

  function Hex(c: CodePoint): (r: seq<Byte>)
    ensures |r| > 0
    decreases c
  {
    (if c < 16 then [] else Hex(c >> 4)) + [HexDigit(c & 0xF)]
  }

  /** The readable message for what has more than 21 bits: the words, 0x and the number. */
  const INVALID_UNICODE: seq<Byte> :=
    [0x28, 0x49, 0x6E, 0x76, 0x61, 0x6C, 0x69, 0x64, 0x20, 0x55, 0x6E, 0x69, 0x63, 0x6F, 0x64, 0x65, 0x20, 0x30, 0x78]

  function Message(c: CodePoint): seq<Byte> {
    INVALID_UNICODE + Hex(c) + [0x29]
  }

  /** What becomes of a code point; zero ends a C string. */
  function Convert(c: CodePoint): seq<Byte> {
    if c == 0 then [] else if c <= MAX_4 then Encode(c) else Message(c)
  }

  method CodePointToUtf8(codePoint: CodePoint) returns (r: seq<Byte>)
    ensures r == Convert(codePoint)
  {
    if codePoint > MAX_4 {
      return INVALID_UNICODE + Hex(codePoint) + [0x29];
    }
    var str := new Byte[5](_ => 0);
    if codePoint <= MAX_1 {
      str[1] := 0;
      str[0] := codePoint as Byte;
    } else if codePoint <= MAX_2 {
      Fill2(codePoint, str);
    } else if codePoint <= MAX_3 {
      Fill3(codePoint, str);
    } else {
      Fill4(codePoint, str);
    }
    ghost var n := |Encode(codePoint)|;
    assert str[n] == 0 && str[..][..n] == Encode(codePoint);
    if codePoint != 0 {
      EncodedNonzero(codePoint);
      assert forall i | 0 <= i < n :: str[..][i] == Encode(codePoint)[i];
      CStringIs(str[..], n);
    }
    return CString(str[..]);
  }

  // ---- The message ----

  function DigitValue(b: Byte): CodePoint {
    if b <= 0x39 then (b - 0x30) as CodePoint else (b - 0x37) as CodePoint
  }

  /** Reading a hexadecimal number. */
  function HexValue(digits: seq<Byte>): CodePoint {
    if digits == [] then 0 else
    (HexValue(digits[..|digits| - 1]) << 4) | DigitValue(digits[|digits| - 1])
  }

  lemma OneDigit(c: CodePoint)
    ensures DigitValue(HexDigit(c & 0xF)) == c & 0xF && 0x30 <= HexDigit(c & 0xF) <= 0x7F
    ensures c < 16 ==> c & 0xF == c
    ensures ((c >> 4) << 4) | (c & 0xF) == c
  {
  }

  lemma OneMoreDigit(digits: seq<Byte>, d: Byte)
    ensures HexValue(digits + [d]) == (HexValue(digits) << 4) | DigitValue(d)
  {
    assert (digits + [d])[..|digits|] == digits;
  }

  lemma FirstDigit(c: CodePoint)
    ensures (0 << 4) | c == c
    ensures c >= 16 ==> c >> 4 < c
  {
  }

  lemma LastDigit(c: CodePoint, before: seq<Byte>)
    requires before == if c < 16 then [] else Hex(c >> 4)
    ensures HexValue(Hex(c)) == (HexValue(before) << 4) | (c & 0xF)
  {
    OneDigit(c);
    OneMoreDigit(before, HexDigit(c & 0xF));
  }

  /** The number in the message is the code point. */
  lemma {:induction false} HexRoundTrip(c: CodePoint)
    ensures HexValue(Hex(c)) == c
    decreases |Hex(c)|
  {
    FirstDigit(c);
    if c < 16 {
      OneDigit(c);
      LastDigit(c, []);
    } else {
      HexRoundTrip(c >> 4);
      OneDigit(c);
      LastDigit(c, Hex(c >> 4));
    }
  }

  ghost predicate Ascii(s: seq<Byte>) {
    forall i | 0 <= i < |s| :: s[i] <= 0x7F
  }

  lemma {:induction false} HexAscii(c: CodePoint)
    ensures Ascii(Hex(c))
    decreases |Hex(c)|
  {
    OneDigit(c);
    if c >= 16 {
      HexAscii(c >> 4);
    }
  }

  lemma {:induction false} AsciiDecodes(s: seq<Byte>, tail: seq<Byte>)
    requires Ascii(s)
    ensures Decode(s + tail).Some? <==> Decode(tail).Some?
  {
    if s == [] {
      assert s + tail == tail;
    } else {
      assert (s + tail)[1..] == s[1..] + tail;
      AsciiDecodes(s[1..], tail);
    }
  }

  // ---- Whole texts ----

  function ConvertAll(cs: seq<CodePoint>): seq<Byte> {
    if cs == [] then [] else Convert(cs[0]) + ConvertAll(cs[1..])
  }

  ghost predicate Nonzero(cs: seq<CodePoint>) {
    forall i | 0 <= i < |cs| :: cs[i] != 0
  }

  ghost predicate NulFree(s: seq<Byte>) {
    forall i | 0 <= i < |s| :: s[i] != 0
  }

  lemma {:induction false} ConvertIsEncode(cs: seq<CodePoint>)
    requires AllScalar(cs) && Nonzero(cs)
    ensures ConvertAll(cs) == EncodeAll(cs)
  {
    if cs != [] {
      ConvertIsEncode(cs[1..]);
    }
  }

  lemma {:induction false} DecodedNonzero(s: seq<Byte>)
    requires Decode(s).Some? && NulFree(s)
    ensures Nonzero(Decode(s).value)
  {
    if s != [] {
      var n := DecodeOne(s).value.1;
      EncodeDecodedOne(s);
      DecodedNonzero(s[n..]);
    }
  }

  /** A text without NUL decodes exactly if it is what the encoder makes of nonzero
      scalar values. */
  lemma AcceptedIsConverted(s: seq<Byte>)
    requires NulFree(s)
    ensures Decode(s).Some? <==> exists cs :: AllScalar(cs) && Nonzero(cs) && ConvertAll(cs) == s
  {
    if Decode(s).Some? {
      var cs := Decode(s).value;
      EncodeDecoded(s);
      DecodedNonzero(s);
      ConvertIsEncode(cs);
      assert AllScalar(cs) && Nonzero(cs) && ConvertAll(cs) == s;
    }
    forall cs | AllScalar(cs) && Nonzero(cs) && ConvertAll(cs) == s ensures Decode(s).Some? {
      ConvertIsEncode(cs);
      DecodeEncoded(cs);
    }
  }

  lemma NotDecodable(c: CodePoint, tail: seq<Byte>)
    requires c <= MAX_4 && !IsScalar(c)
    ensures DecodeOne(Encode(c) + tail).None?
  {
    OutOfRange(c);
    if c <= MAX_3 {
      Split3(c);
    } else {
      Split4(c);
    }
  }

  /** Harmless to convert: a scalar value, or so big that it becomes a message. */
  predicate Convertible(c: CodePoint) {
    IsScalar(c) || c > MAX_4
  }

  lemma ConvertStep(c: CodePoint, tail: seq<Byte>)
    requires c != 0
    ensures Decode(Convert(c) + tail).Some? <==> Convertible(c) && Decode(tail).Some?
  {
    if c > MAX_4 {
      HexAscii(c);
      AsciiDecodes(Message(c), tail);
    } else if IsScalar(c) {
      DecodeEncodedOne(c, tail);
      assert (Encode(c) + tail)[|Encode(c)|..] == tail;
    } else {
      NotDecodable(c, tail);
    }
  }

  /** What the encoder makes of any code points is UTF-8 exactly if there is no surrogate
      among them and nothing from U+110000 up to 21 bits. */
  lemma {:induction false} ConvertedIsUtf8Iff(cs: seq<CodePoint>)
    requires Nonzero(cs)
    ensures Decode(ConvertAll(cs)).Some? <==> forall i | 0 <= i < |cs| :: Convertible(cs[i])
  {
    if cs != [] {
      var rest := cs[1..];
      ConvertedIsUtf8Iff(rest);
      ConvertStep(cs[0], ConvertAll(rest));
      assert forall i | 0 < i < |cs| :: cs[i] == rest[i - 1];
    }
  }

  // ---- The validator ----

  lemma Check2(a: Byte, b: Byte)
    requires IsTrail(b)
    ensures 0xC2 <= a <= 0xDF <==> a & 0xE0 == 0xC0 && Join2(a, b) > MAX_1
  {
  }

  lemma Check3(a: Byte, b: Byte, c: Byte)
    requires IsTrail(b) && IsTrail(c)
    ensures 0xE0 <= a <= 0xEF && (a != 0xE0 || b >= 0xA0) && (a != 0xED || b < 0xA0) <==>
            a & 0xF0 == 0xE0 && Join3(a, b, c) > MAX_2 && IsScalar(Join3(a, b, c))
  {
  }

  lemma Check4(a: Byte, b: Byte, c: Byte, d: Byte)
    requires IsTrail(b) && IsTrail(c) && IsTrail(d)
    ensures 0xF0 <= a <= 0xF4 && (a != 0xF0 || b >= 0x90) && (a != 0xF4 || b < 0x90) <==>
            a & 0xF8 == 0xF0 && Join4(a, b, c, d) > MAX_3 && IsScalar(Join4(a, b, c, d))
  {
  }

  /** Length of the first character by the validator's byte ranges; 0 if it is malformed. */
  function CharLength(s: seq<Byte>): nat
    requires s != []
  {
    if s[0] <= 0x7F then 1
    else if s[0] < 0xC2 then 0
    else if s[0] <= 0xDF && |s| >= 2 && IsTrail(s[1]) then 2
    else if 0xE0 <= s[0] <= 0xEF && |s| >= 3 && IsTrail(s[1]) && IsTrail(s[2]) &&
            (s[0] != 0xE0 || s[1] >= 0xA0) && (s[0] != 0xED || s[1] < 0xA0) then 3
    else if 0xF0 <= s[0] <= 0xF4 && |s| >= 4 && IsTrail(s[1]) && IsTrail(s[2]) && IsTrail(s[3]) &&
            (s[0] != 0xF0 || s[1] >= 0x90) && (s[0] != 0xF4 || s[1] < 0x90) then 4
    else 0
  }

  lemma LeadClasses(a: Byte)
    ensures a & 0xE0 == 0xC0 <==> 0xC0 <= a <= 0xDF
    ensures a & 0xF0 == 0xE0 <==> 0xE0 <= a <= 0xEF
    ensures a & 0xF8 == 0xF0 <==> 0xF0 <= a <= 0xF7
  {
  }

  lemma CharLength2(s: seq<Byte>)
    requires s != [] && 0xC0 <= s[0] <= 0xDF
    ensures Decode2(s).Some? <==> CharLength(s) == 2
    ensures CharLength(s) in {0, 2}
  {
    if |s| >= 2 && IsTrail(s[1]) {
      Check2(s[0], s[1]);
      LeadClasses(s[0]);
    }
  }

  lemma CharLength3(s: seq<Byte>)
    requires s != [] && 0xE0 <= s[0] <= 0xEF
    ensures Decode3(s).Some? <==> CharLength(s) == 3
    ensures CharLength(s) in {0, 3}
  {
    if |s| >= 3 && IsTrail(s[1]) && IsTrail(s[2]) {
      Check3(s[0], s[1], s[2]);
      LeadClasses(s[0]);
    }
  }

  lemma CharLength4(s: seq<Byte>)
    requires s != [] && 0xF0 <= s[0] <= 0xF7
    ensures Decode4(s).Some? <==> CharLength(s) == 4
    ensures CharLength(s) in {0, 4}
  {
    if |s| >= 4 && IsTrail(s[1]) && IsTrail(s[2]) && IsTrail(s[3]) {
      Check4(s[0], s[1], s[2], s[3]);
      LeadClasses(s[0]);
    }
  }

  /** The byte ranges accept exactly the characters that decode to scalar values. */
  lemma CharLengthIs(s: seq<Byte>)
    requires s != []
    ensures DecodeOne(s).Some? <==> CharLength(s) > 0
    ensures DecodeOne(s).Some? ==> DecodeOne(s).value.1 == CharLength(s)
  {
    LeadClasses(s[0]);
    if 0xC0 <= s[0] <= 0xDF {
      CharLength2(s);
    } else if 0xE0 <= s[0] <= 0xEF {
      CharLength3(s);
    } else if 0xF0 <= s[0] <= 0xF7 {
      CharLength4(s);
    }
  }

  lemma DecodeStep(s: seq<Byte>)
    requires s != []
    ensures Decode(s).Some? <==> CharLength(s) > 0 && CharLength(s) <= |s| && Decode(s[CharLength(s)..]).Some?
  {
    CharLengthIs(s);
  }

  /** Accepts exactly the encodings of sequences of scalar values. */
  method IsValidUTF8(s: seq<Byte>) returns (ok: bool)
    ensures ok <==> Decode(s).Some?
    ensures ok <==> exists cs :: AllScalar(cs) && EncodeAll(cs) == s
    ensures NulFree(s) ==> (ok <==> exists cs :: AllScalar(cs) && Nonzero(cs) && ConvertAll(cs) == s)
  {
    if NulFree(s) {
      AcceptedIsConverted(s);
    }
    ok := Validate(s);
    if ok {
      EncodeDecoded(s);
      assert AllScalar(Decode(s).value) && EncodeAll(Decode(s).value) == s;
    } else {
      forall cs | AllScalar(cs) ensures EncodeAll(cs) != s {
        DecodeEncoded(cs);
      }
    }
  }

  method Validate(s: seq<Byte>) returns (ok: bool)
    ensures ok <==> Decode(s).Some?
  {
    var i := 0;
    assert s[0..] == s;
    while i < |s|
      invariant 0 <= i <= |s| && (Decode(s).Some? <==> Decode(s[i..]).Some?)
    {
      ghost var rest := s[i..];
      DecodeStep(rest);
      var lead := s[i];
      i := i + 1;
      if lead <= 0x7F {
        continue;
      }
      if lead < 0xC2 {
        return false;
      } else if lead <= 0xDF && i + 1 <= |s| && IsTrail(s[i]) {
        i := i + 1;
      } else if 0xE0 <= lead <= 0xEF && i + 2 <= |s| && IsTrail(s[i]) && IsTrail(s[i + 1]) &&
                (lead != 0xE0 || s[i] >= 0xA0) && (lead != 0xED || s[i] < 0xA0) {
        i := i + 2;
      } else if 0xF0 <= lead <= 0xF4 && i + 3 <= |s| && IsTrail(s[i]) && IsTrail(s[i + 1]) && IsTrail(s[i + 2]) &&
                (lead != 0xF0 || s[i] >= 0x90) && (lead != 0xF4 || s[i] < 0x90) {
        i := i + 3;
      } else {
        return false;
      }
    }
    return true;
  }

  // ---- Wide strings ----

  /** sizeof(wchar_t) == 2: the wide string is UTF-16, otherwise UTF-32. */
  predicate IsSurrogatePair(utf16: bool, first: CodePoint, second: CodePoint) {
    utf16 && first & 0xFC00 == 0xD800 && second & 0xFC00 == 0xDC00
  }

  function FromSurrogates(first: CodePoint, second: CodePoint): CodePoint {
    (((first & 0x3FF) << 10) | (second & 0x3FF)) + 0x1_0000
  }

  /** The first code point and the number of units it takes. */
  function First(utf16: bool, s: seq<CodePoint>): (r: (CodePoint, nat))
    requires s != []
    ensures 1 <= r.1 <= |s|
  {
    if |s| >= 2 && IsSurrogatePair(utf16, s[0], s[1]) then (FromSurrogates(s[0], s[1]), 2) else (s[0], 1)
  }

  /** The code points of a wide string, up to the first NUL. */
  function CodePoints(utf16: bool, s: seq<CodePoint>): seq<CodePoint> {
    if s == [] || s[0] == 0 then [] else
    var (c, n) := First(utf16, s);
    [c] + CodePoints(utf16, s[n..])
  }

  /** The conversion of a wide string. */
  function WideConverted(utf16: bool, s: seq<CodePoint>): seq<Byte> {
    ConvertAll(CodePoints(utf16, s))
  }

  lemma WideStep(utf16: bool, s: seq<CodePoint>)
    requires s != [] && s[0] != 0
    ensures var (c, n) := First(utf16, s);
            WideConverted(utf16, s) == Convert(c) + WideConverted(utf16, s[n..])
  {
    var (c, n) := First(utf16, s);
    assert ([c] + CodePoints(utf16, s[n..]))[1..] == CodePoints(utf16, s[n..]);
  }

  lemma WideNext(utf16: bool, s: seq<CodePoint>, i: nat, r: seq<Byte>)
    requires i < |s| && s[i] != 0
    ensures var (c, n) := First(utf16, s[i..]);
            r + Convert(c) + WideConverted(utf16, s[i + n..]) == r + WideConverted(utf16, s[i..])
  {
    var (c, n) := First(utf16, s[i..]);
    WideStep(utf16, s[i..]);
    assert s[i..][n..] == s[i + n..];
    Associative(r, Convert(c), WideConverted(utf16, s[i + n..]));
  }

  method ReadCodePoint(utf16: bool, s: seq<CodePoint>, i: nat) returns (c: CodePoint, n: nat)
    requires i < |s|
    ensures (c, n) == First(utf16, s[i..])
  {
    if i + 1 < |s| && IsSurrogatePair(utf16, s[i], s[i + 1]) {
      return FromSurrogates(s[i], s[i + 1]), 2;
    }
    return s[i], 1;
  }

  method WideStringToUtf8(utf16: bool, s: seq<CodePoint>) returns (r: seq<Byte>)
    ensures r == WideConverted(utf16, s)
  {
    r := [];
    var i := 0;
    assert s[0..] == s;
    while i < |s| && s[i] != 0
      invariant 0 <= i <= |s| && r + WideConverted(utf16, s[i..]) == WideConverted(utf16, s)
      decreases |s| - i
    {
      var c, n := ReadCodePoint(utf16, s, i);
      WideNext(utf16, s, i, r);
      var bytes := CodePointToUtf8(c);
      r := r + bytes;
      i := i + n;
    }
  }

  lemma Associative<T>(a: seq<T>, b: seq<T>, c: seq<T>)
    ensures a + (b + c) == a + b + c
  {
  }

  /** UTF-16 as RFC 2781 section 2.1 writes it. */
  function Utf16(c: CodePoint): seq<CodePoint>
    requires IsScalar(c)
  {
    if c <= 0xFFFF then [c] else [0xD800 | ((c - 0x1_0000) >> 10), 0xDC00 | ((c - 0x1_0000) & 0x3FF)]
  }

  function Utf16All(cs: seq<CodePoint>): seq<CodePoint>
    requires AllScalar(cs)
  {
    if cs == [] then [] else Utf16(cs[0]) + Utf16All(cs[1..])
  }

  lemma PairBits(d: CodePoint)
    requires d <= 0xF_FFFF
    ensures (0xD800 | (d >> 10)) & 0xFC00 == 0xD800 && (0xDC00 | (d & 0x3FF)) & 0xFC00 == 0xDC00
    ensures (((0xD800 | (d >> 10)) & 0x3FF) << 10) | ((0xDC00 | (d & 0x3FF)) & 0x3FF) == d
    ensures 0xD800 | (d >> 10) != 0
  {
  }

  lemma Offset(c: CodePoint)
    requires 0xFFFF < c <= 0x10_FFFF
    ensures c - 0x1_0000 <= 0xF_FFFF && c - 0x1_0000 + 0x1_0000 == c
  {
  }

  lemma PairOf(c: CodePoint)
    requires 0xFFFF < c <= 0x10_FFFF
    ensures var p := Utf16(c);
            p[0] != 0 && IsSurrogatePair(true, p[0], p[1]) && FromSurrogates(p[0], p[1]) == c
  {
    Offset(c);
    PairBits(c - 0x1_0000);
  }

  lemma NotHighSurrogate(c: CodePoint)
    requires IsScalar(c) && c <= 0xFFFF
    ensures c & 0xFC00 != 0xD800
  {
  }

  /** The first unit or pair reads back as the code point it was made from. */
  lemma FirstOfUtf16(c: CodePoint, tail: seq<CodePoint>)
    requires IsScalar(c) && c != 0
    ensures var all := Utf16(c) + tail;
            all[0] != 0 && First(true, all) == (c, |Utf16(c)|) && all[|Utf16(c)|..] == tail
  {
    if c <= 0xFFFF {
      NotHighSurrogate(c);
    } else {
      PairOf(c);
    }
  }

  /** No unit that starts a pair stands before one that ends it. */
  ghost predicate NoPairs(s: seq<CodePoint>) {
    forall i | 0 <= i < |s| - 1 :: !(s[i] & 0xFC00 == 0xD800 && s[i + 1] & 0xFC00 == 0xDC00)
  }

  /** Units without a partner are taken one by one, and so are all units of UTF-32. */
  lemma {:induction false} LoneUnits(utf16: bool, s: seq<CodePoint>)
    requires Nonzero(s) && (utf16 ==> NoPairs(s))
    ensures CodePoints(utf16, s) == s
  {
    if s != [] {
      assert utf16 ==> NoPairs(s[1..]) by {
        if utf16 {
          forall i | 0 <= i < |s[1..]| - 1
            ensures !(s[1..][i] & 0xFC00 == 0xD800 && s[1..][i + 1] & 0xFC00 == 0xDC00)
          {
            assert s[1..][i] == s[i + 1] && s[1..][i + 1] == s[i + 2];
          }
        }
      }
      LoneUnits(utf16, s[1..]);
      assert First(utf16, s) == (s[0], 1);
      assert [s[0]] + s[1..] == s;
    }
  }

  /** Everything from the first NUL on is left out. */
  lemma {:induction false} StopsAtNul(utf16: bool, s: seq<CodePoint>, tail: seq<CodePoint>)
    requires Nonzero(s)
    ensures CodePoints(utf16, s + [0] + tail) == CodePoints(utf16, s)
    decreases |s|
  {
    var all := s + [0] + tail;
    if s != [] {
      NulIsAlone(utf16, s, tail);
      var n := First(utf16, s).1;
      assert all[n..] == s[n..] + [0] + tail;
      StopsAtNul(utf16, s[n..], tail);
    }
  }

  lemma NulIsAlone(utf16: bool, s: seq<CodePoint>, tail: seq<CodePoint>)
    requires s != []
    ensures First(utf16, s + [0] + tail) == First(utf16, s)
  {
  }

  /** Both wide encodings of a text without NUL read back as the same code points. */
  lemma {:induction false} WideIsSame(cs: seq<CodePoint>)
    requires AllScalar(cs) && Nonzero(cs)
    ensures CodePoints(true, Utf16All(cs)) == cs && CodePoints(false, cs) == cs
  {
    if cs != [] {
      var c, rest := cs[0], cs[1..];
      WideIsSame(rest);
      FirstOfUtf16(c, Utf16All(rest));
      assert [c] + rest == cs;
    }
  }

  /** From UTF-16 through the encoder and back through the decoder, nothing is lost. */
  lemma WideRoundTrip(cs: seq<CodePoint>)
    requires AllScalar(cs) && Nonzero(cs)
    ensures Decode(WideConverted(true, Utf16All(cs))) == Some(cs)
  {
    WideIsSame(cs);
    ConvertIsEncode(cs);
    DecodeEncoded(cs);
  }
}
