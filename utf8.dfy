/**
 * Bytes, UTF-8 and C strings: the encoding Swift uses for `String.utf8`
 * and `withCString`, the validation done by `String(validatingUTF8:)`,
 * and the "bytes up to the first NUL" rule of `strlen`/`strdup`.
 * The well-formed byte sequences are those of Table 3-7 of the Unicode
 * Standard; a Dafny `char` is a Unicode scalar value.
 */
module Utf8 {
  import opened Common

  type byte = x: int | 0 <= x < 256
  type Bytes = seq<byte>

  predicate IsContinuation(b: byte) { 0x80 <= b <= 0xBF }

  /** The one to four bytes that encode one scalar value. */
  function EncodeChar(c: char): (r: Bytes)
    ensures 1 <= |r| <= 4
    ensures (|r| == 1) == (c as int < 0x80)
    ensures forall i :: 1 <= i < |r| ==> IsContinuation(r[i])
  {
    var n := c as int;
    if n < 0x80 then [n]
    else if n < 0x800 then [0xC0 + n / 64, 0x80 + n % 64]
    else if n < 0x10000 then [0xE0 + n / 4096, 0x80 + (n / 64) % 64, 0x80 + n % 64]
    else [0xF0 + n / 262144, 0x80 + (n / 4096) % 64, 0x80 + (n / 64) % 64, 0x80 + n % 64]
  }

  /** `s.utf8`: the UTF-8 encoding of a whole string. */
  function Encode(s: string): Bytes {
    if s == [] then [] else EncodeChar(s[0]) + Encode(s[1..])
  }

  /** Whether a four-byte sequence starting with `b0` may continue with `b1`. */
  predicate SecondByteOk(b0: byte, b1: byte) {
    if b0 == 0xE0 then 0xA0 <= b1 <= 0xBF
    else if b0 == 0xED then 0x80 <= b1 <= 0x9F
    else if b0 == 0xF0 then 0x90 <= b1 <= 0xBF
    else if b0 == 0xF4 then 0x80 <= b1 <= 0x8F
    else IsContinuation(b1)
  }

  /** Width of the sequence announced by a lead byte, 0 when `b0` cannot start one. */
  function LeadWidth(b0: byte): nat {
    if b0 < 0x80 then 1
    else if 0xC2 <= b0 <= 0xDF then 2
    else if 0xE0 <= b0 <= 0xEF then 3
    else if 0xF0 <= b0 <= 0xF4 then 4
    else 0
  }

  /** The scalar value carried by a two-, three- or four-byte sequence. */
  function Code2(b0: int, b1: int): int { (b0 - 0xC0) * 64 + (b1 - 0x80) }
  function Code3(b0: int, b1: int, b2: int): int { (b0 - 0xE0) * 4096 + (b1 - 0x80) * 64 + (b2 - 0x80) }
  function Code4(b0: int, b1: int, b2: int, b3: int): int {
    (b0 - 0xF0) * 262144 + (b1 - 0x80) * 4096 + (b2 - 0x80) * 64 + (b3 - 0x80)
  }

  /**
   * Decodes the first scalar value of `b`, returning it with the number of
   * bytes it occupies, or None when `b` does not start with a well-formed
   * sequence.
   */
  function DecodeFirst(b: Bytes): (r: Option<(char, nat)>)
    requires |b| > 0
    ensures r.Some? ==> 1 <= r.value.1 <= |b| && r.value.1 == LeadWidth(b[0])
  {
    var w := LeadWidth(b[0]);
    if w == 0 || |b| < w then None
    else if w == 1 then Some((b[0] as char, 1))
    else if !SecondByteOk(b[0], b[1]) then None
    else if w == 2 then Some((Code2(b[0], b[1]) as char, 2))
    else if !IsContinuation(b[2]) then None
    else if w == 3 then Some((Code3(b[0], b[1], b[2]) as char, 3))
    else if !IsContinuation(b[3]) then None
    else Some((Code4(b[0], b[1], b[2], b[3]) as char, 4))
  }

  /** `String(validatingUTF8:)` on exactly the bytes `b`: None unless all of `b` is well-formed. */
  function Decode(b: Bytes): Option<string>
    decreases |b|
  {
    if b == [] then Some([])
    else match DecodeFirst(b)
      case None => None
      case Some((c, k)) =>
        match Decode(b[k..])
        case None => None
        case Some(rest) => Some([c] + rest)
  }

  /** The bytes a C string function sees: everything before the first NUL. */
  function CString(b: Bytes): (r: Bytes)
    ensures |r| <= |b| && r == b[..|r|]
    ensures 0 !in r
    ensures |r| < |b| ==> b[|r|] == 0
  {
    if b == [] || b[0] == 0 then [] else [b[0]] + CString(b[1..])
  }

  /** `strlen`. */
  function StrLen(b: Bytes): nat { |CString(b)| }

  predicate NoNul(s: string) { forall i :: 0 <= i < |s| ==> s[i] != 0 as char }

  // ---------------------------------------------------------------------
  // Properties

  lemma DecodeFirstOfEncodeChar(c: char, rest: Bytes)
    ensures DecodeFirst(EncodeChar(c) + rest) == Some((c, |EncodeChar(c)|))
  {
    var n := c as int;
    var b := EncodeChar(c) + rest;
    if n < 0x80 {
    } else if n < 0x800 {
      assert b[0] as int == 0xC0 + n / 64 && b[1] as int == 0x80 + n % 64;
      assert Code2(b[0], b[1]) == n;
    } else if n < 0x10000 {
      assert b[0] as int == 0xE0 + n / 4096 && b[1] as int == 0x80 + (n / 64) % 64 && b[2] as int == 0x80 + n % 64;
      ThreeByteParts(n);
      assert Code3(b[0], b[1], b[2]) == n;
    } else {
      assert b[0] as int == 0xF0 + n / 262144 && b[1] as int == 0x80 + (n / 4096) % 64;
      assert b[2] as int == 0x80 + (n / 64) % 64 && b[3] as int == 0x80 + n % 64;
      FourByteParts(n);
      assert Code4(b[0], b[1], b[2], b[3]) == n;
    }
  }

  lemma ThreeByteParts(n: int)
    requires 0x800 <= n < 0x10000 && !(0xD800 <= n < 0xE000)
    ensures (n / 4096) * 4096 + ((n / 64) % 64) * 64 + n % 64 == n
    ensures n / 4096 == 0 ==> (n / 64) % 64 >= 0x20
    ensures n / 4096 == 0xD ==> (n / 64) % 64 < 0x20
  {
    var q := n / 64;
    assert q * 64 + n % 64 == n;
    assert (q / 64) * 64 + q % 64 == q;
    assert n / 4096 == q / 64;
  }

  lemma FourByteParts(n: int)
    requires 0x10000 <= n <= 0x10FFFF
    ensures (n / 262144) * 262144 + ((n / 4096) % 64) * 4096 + ((n / 64) % 64) * 64 + n % 64 == n
    ensures n / 262144 == 0 ==> (n / 4096) % 64 >= 0x10
    ensures n / 262144 == 4 ==> (n / 4096) % 64 < 0x10
  {
    var q := n / 64;
    var p := q / 64;
    assert q * 64 + n % 64 == n;
    assert p * 64 + q % 64 == q;
    assert (p / 64) * 64 + p % 64 == p;
    assert n / 4096 == p;
    assert n / 262144 == p / 64;
  }

  /** Decoding what was encoded gives back the string: `String(validatingUTF8:)` accepts every `s.utf8`. */
  lemma {:induction false} DecodeEncode(s: string)
    ensures Decode(Encode(s)) == Some(s)
  {
    if s != [] {
      var e := EncodeChar(s[0]);
      assert Encode(s) == e + Encode(s[1..]);
      DecodeFirstOfEncodeChar(s[0], Encode(s[1..]));
      assert Encode(s)[|e|..] == Encode(s[1..]);
      DecodeEncode(s[1..]);
      assert [s[0]] + s[1..] == s;
    }
  }

  lemma EncodeCharOfCode2(b0: int, b1: int)
    requires 0xC2 <= b0 <= 0xDF && 0x80 <= b1 <= 0xBF
    ensures Code2(b0, b1) / 64 == b0 - 0xC0 && Code2(b0, b1) % 64 == b1 - 0x80
  {
  }

  lemma EncodeCharOfCode3(b0: int, b1: int, b2: int)
    requires 0xE0 <= b0 <= 0xEF && 0x80 <= b1 <= 0xBF && 0x80 <= b2 <= 0xBF
    ensures Code3(b0, b1, b2) / 4096 == b0 - 0xE0
    ensures (Code3(b0, b1, b2) / 64) % 64 == b1 - 0x80
    ensures Code3(b0, b1, b2) % 64 == b2 - 0x80
  {
    var n := Code3(b0, b1, b2);
    var q := (b0 - 0xE0) * 64 + (b1 - 0x80);
    assert n == q * 64 + (b2 - 0x80);
    assert n / 64 == q;
    assert q / 64 == b0 - 0xE0 && q % 64 == b1 - 0x80;
    assert n / 4096 == q / 64;
  }

  lemma EncodeCharOfCode4(b0: int, b1: int, b2: int, b3: int)
    requires 0xF0 <= b0 <= 0xF4 && 0x80 <= b1 <= 0xBF && 0x80 <= b2 <= 0xBF && 0x80 <= b3 <= 0xBF
    ensures Code4(b0, b1, b2, b3) / 262144 == b0 - 0xF0
    ensures (Code4(b0, b1, b2, b3) / 4096) % 64 == b1 - 0x80
    ensures (Code4(b0, b1, b2, b3) / 64) % 64 == b2 - 0x80
    ensures Code4(b0, b1, b2, b3) % 64 == b3 - 0x80
  {
    var n := Code4(b0, b1, b2, b3);
    var p := (b0 - 0xF0) * 64 + (b1 - 0x80);
    var q := p * 64 + (b2 - 0x80);
    assert n == q * 64 + (b3 - 0x80);
    assert n / 64 == q;
    assert q / 64 == p && q % 64 == b2 - 0x80;
    assert p / 64 == b0 - 0xF0 && p % 64 == b1 - 0x80;
    assert n / 4096 == p;
    assert n / 262144 == p / 64;
  }

  lemma EncodeCharOfDecodeFirst(b: Bytes)
    requires |b| > 0 && DecodeFirst(b).Some?
    ensures EncodeChar(DecodeFirst(b).value.0) == b[..DecodeFirst(b).value.1]
  {
    var w := LeadWidth(b[0]);
    if w == 2 {
      EncodeCharOfCode2(b[0], b[1]);
    } else if w == 3 {
      EncodeCharOfCode3(b[0], b[1], b[2]);
    } else if w == 4 {
      EncodeCharOfCode4(b[0], b[1], b[2], b[3]);
    }
  }

  /** Conversely, whatever `Decode` accepts is exactly the encoding of what it returns. */
  lemma {:induction false} EncodeDecode(b: Bytes)
    requires Decode(b).Some?
    ensures Encode(Decode(b).value) == b
    decreases |b|
  {
    if b != [] {
      var c, k, rest := DecodeStep(b);
      EncodeCharOfDecodeFirst(b);
      EncodeDecode(b[k..]);
      Assemble(b, c, k, rest);
    }
  }

  lemma Assemble(b: Bytes, c: char, k: nat, rest: string)
    requires k <= |b| && EncodeChar(c) == b[..k] && Encode(rest) == b[k..]
    ensures Encode([c] + rest) == b
  {
    EncodeCons(c, rest);
    assert b == b[..k] + b[k..];
  }

  /** One step of `Decode`: the first scalar value, its width, and the decoding of the bytes after it. */
  lemma DecodeStep(b: Bytes) returns (c: char, k: nat, rest: string)
    requires b != [] && Decode(b).Some?
    ensures DecodeFirst(b) == Some((c, k)) && k <= |b|
    ensures Decode(b[k..]) == Some(rest) && Decode(b).value == [c] + rest
  {
    c, k := DecodeFirst(b).value.0, DecodeFirst(b).value.1;
    rest := Decode(b[k..]).value;
  }

  lemma EncodeCons(c: char, rest: string)
    ensures Encode([c] + rest) == EncodeChar(c) + Encode(rest)
  {
    assert ([c] + rest)[1..] == rest;
  }

  /** The encoding holds a NUL byte exactly where the string holds U+0000. */
  lemma {:induction false} EncodeNoNul(s: string)
    ensures NoNul(s) <==> 0 !in Encode(s)
  {
    if s != [] {
      EncodeNoNul(s[1..]);
      var e := EncodeChar(s[0]);
      assert Encode(s) == e + Encode(s[1..]);
      assert (0 in e) <==> s[0] == 0 as char;
      assert NoNul(s) <==> s[0] != 0 as char && NoNul(s[1..]);
    }
  }

  /** A string without U+0000 reaches C intact: `strdup` copies all of `s.utf8` and `strlen` counts it. */
  lemma CStringOfEncode(s: string)
    requires NoNul(s)
    ensures CString(Encode(s)) == Encode(s)
    ensures StrLen(Encode(s)) == |Encode(s)|
  {
    EncodeNoNul(s);
  }

  /** The UTF-8 byte count is at least the number of scalar values and at most four times it. */
  lemma {:induction false} EncodeLength(s: string)
    ensures |s| <= |Encode(s)| <= 4 * |s|
  {
    if s != [] {
      EncodeLength(s[1..]);
    }
  }
}
