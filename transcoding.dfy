/**
 * The string conversions of the LDAP session (`string(ber:)`,
 * `string(pstr:)`, `string(str:)` in Sources/PerfectLDAP/PerfectLDAP.swift,
 * `Iconv.convert(from:)` in Sources/PerfectLDAP/Utilities.swift).
 * The iconv converters themselves are foreign: they are function values.
 * The library's counted strings are given as their `bv_len` bytes; like
 * every berval the library hands out, the byte after them is a NUL.
 */
module Transcoding {
  import opened Common
  import opened Utf8

  /** What `Iconv.convert(buf:length:)` hands back: the converted buffer (nil on failure) and its size. */
  datatype Converted = Converted(buffer: Option<Bytes>, size: nat)

  type Converter = Bytes -> Converted

  /**
   * The converters of one session: `iconv` turns server bytes into UTF-8,
   * `iconvR` turns UTF-8 into server bytes.  Both are nil for a UTF-8 server.
   */
  datatype Transcoder = Transcoder(iconv: Option<Converter>, iconvR: Option<Converter>)

  const Utf8Server: Transcoder := Transcoder(None, None)

  /** A `berval` built for the library: its length field and the bytes its pointer reaches (None for nil). */
  datatype Berval = Berval(len: nat, val: Option<Bytes>)

  /** `Iconv.convert(from:)`: convert, then read the output as a C string of UTF-8; "" on any failure. */
  function ConvertFrom(conv: Converter, b: Bytes): string {
    match conv(b).buffer
    case None => ""
    case Some(u) => Decode(CString(u)).GetOr("")
  }

  /**
   * `string(ber:)`: without a converter, `String(validatingUTF8: bv_val)`,
   * which reads up to the first NUL and yields "" for malformed UTF-8.
   */
  function StringOfBer(t: Transcoder, b: Bytes): string {
    match t.iconv
    case None => Decode(CString(b)).GetOr("")
    case Some(conv) => ConvertFrom(conv, b)
  }

  /** `string(pstr:)`: a C string read as a berval of `strlen` bytes. */
  function StringOfPstr(t: Transcoder, p: Bytes): string {
    StringOfBer(t, CString(p))
  }

  /**
   * `string(str:)`: without a converter, the length field is the UTF-8 byte
   * count while the buffer is a `ber_strdup` copy of the C string; with a
   * converter, both come from converting all of `s.utf8`.
   */
  function StringToBerval(t: Transcoder, s: string): Berval {
    match t.iconvR
    case None => Berval(|Encode(s)|, Some(CString(Encode(s))))
    case Some(conv) =>
      var c := conv(Encode(s));
      Berval(c.size, c.buffer)
  }

  // ---------------------------------------------------------------------
  // Properties

  /**
   * Without a converter, reading a counted string gives either exactly the
   * text whose UTF-8 is the bytes before the first NUL, or "" when those
   * bytes are not well-formed UTF-8.
   */
  lemma StringOfBerExactOrEmpty(b: Bytes)
    ensures Decode(CString(b)).Some? ==> Encode(StringOfBer(Utf8Server, b)) == CString(b)
    ensures Decode(CString(b)).None? ==> StringOfBer(Utf8Server, b) == ""
  {
    if Decode(CString(b)).Some? {
      EncodeDecode(CString(b));
    }
  }

  /**
   * Without a converter the buffer of `string(str:)` holds exactly `len`
   * bytes if and only if the text has no U+0000; otherwise `ber_strdup`
   * stops at the NUL and the length field counts past the buffer.
   */
  lemma BervalBufferMatchesLength(s: string)
    ensures StringToBerval(Utf8Server, s).val.Some?
    ensures StringToBerval(Utf8Server, s).len == |Encode(s)|
    ensures (StringToBerval(Utf8Server, s).len == |StringToBerval(Utf8Server, s).val.value|) <==> NoNul(s)
  {
    EncodeNoNul(s);
    var e := Encode(s);
    var r := CString(e);
    if |r| == |e| {
      assert r == e;
    }
  }

  /** Without a converter, a NUL-free text written with `string(str:)` reads back unchanged with `string(ber:)`. */
  lemma Utf8RoundTrip(s: string)
    requires NoNul(s)
    ensures StringOfBer(Utf8Server, StringToBerval(Utf8Server, s).val.value) == s
  {
    CStringOfEncode(s);
    DecodeEncode(s);
  }

  /**
   * With a code page, a NUL-free text survives `string(str:)` followed by
   * `string(ber:)` whenever the two converters undo each other on it.
   */
  lemma CodePageRoundTrip(t: Transcoder, s: string, u: Bytes)
    requires NoNul(s)
    requires t.iconv.Some? && t.iconvR.Some?
    requires t.iconvR.value(Encode(s)) == Converted(Some(u), |u|)
    requires t.iconv.value(u).buffer == Some(Encode(s))
    ensures StringToBerval(t, s) == Berval(|u|, Some(u))
    ensures StringOfBer(t, u) == s
  {
    CStringOfEncode(s);
    DecodeEncode(s);
  }
}
