/**
 * Bytes and the text conversions that the native library and its Python
 * binding perform at the language boundary: the UTF-8 bytes of a C string
 * literal or of a Python `str`, the decoding of native bytes back into a
 * Python `str`, and the decimal rendering used in an f-string.
 */
module TextBytes {

  datatype Option<T> = None | Some(value: T)

  /** An `unsigned char` / `uint8_t`: the element of every native buffer. */
  newtype byte = x: int | 0 <= x < 256

  /** Every character of `s` is 7-bit ASCII. */
  predicate IsAscii(s: string)
  {
    forall i | 0 <= i < |s| :: s[i] as int < 128
  }

  /** Every byte of `b` is below 0x80. */
  predicate IsAsciiBytes(b: seq<byte>)
  {
    forall i | 0 <= i < |b| :: b[i] < 128
  }

  /** The UTF-8 encoding of one Unicode scalar value (RFC 3629, section 3). */
  function CharUtf8(c: char): (r: seq<byte>)
    ensures 1 <= |r| <= 4
    ensures c as int < 128 <==> |r| == 1
    ensures c as int < 128 ==> r[0] as int == c as int
    ensures c as int >= 128 ==> forall i | 0 <= i < |r| :: r[i] >= 0x80
  {
    var cp := c as int;
    if cp < 0x80 then
      [cp as byte]
    else if cp < 0x800 then
      [(0xC0 + cp / 64) as byte, (0x80 + cp % 64) as byte]
    else if cp < 0x10000 then
      [(0xE0 + cp / 4096) as byte, (0x80 + cp / 64 % 64) as byte, (0x80 + cp % 64) as byte]
    else
      [(0xF0 + cp / 262144) as byte, (0x80 + cp / 4096 % 64) as byte,
       (0x80 + cp / 64 % 64) as byte, (0x80 + cp % 64) as byte]
  }

  /** Python's `text.encode("utf-8")`, and the bytes a C compiler stores for a literal. */
  function Utf8Encode(s: string): (r: seq<byte>)
    ensures |s| <= |r| <= 4 * |s|
  {
    if s == [] then [] else CharUtf8(s[0]) + Utf8Encode(s[1..])
  }

  /** Encoding distributes over concatenation. */
  lemma {:induction false} Utf8EncodeAppend(a: string, b: string)
    ensures Utf8Encode(a + b) == Utf8Encode(a) + Utf8Encode(b)
  {
    if a == [] {
      assert a + b == b;
    } else {
      assert (a + b)[1..] == a[1..] + b;
      Utf8EncodeAppend(a[1..], b);
    }
  }

  /** ASCII text encodes byte for byte. */
  lemma {:induction false} Utf8EncodeAscii(s: string)
    requires IsAscii(s)
    ensures |Utf8Encode(s)| == |s|
    ensures forall i | 0 <= i < |s| :: Utf8Encode(s)[i] as int == s[i] as int
  {
    if s != [] {
      Utf8EncodeAscii(s[1..]);
    }
  }

  /** A non-ASCII character leaves a byte of 0x80 or above in the encoding. */
  lemma {:induction false} Utf8EncodeNonAscii(s: string, k: nat)
    requires k < |s| && s[k] as int >= 128
    ensures exists j | 0 <= j < |Utf8Encode(s)| :: Utf8Encode(s)[j] >= 0x80
  {
    if k == 0 {
      assert Utf8Encode(s)[0] == CharUtf8(s[0])[0];
    } else {
      Utf8EncodeNonAscii(s[1..], k - 1);
      var j :| 0 <= j < |Utf8Encode(s[1..])| && Utf8Encode(s[1..])[j] >= 0x80;
      assert Utf8Encode(s)[|CharUtf8(s[0])| + j] == Utf8Encode(s[1..])[j];
    }
  }

  /** The bytes of ASCII text, one per character. */
  function AsciiBytes(s: string): (r: seq<byte>)
    requires IsAscii(s)
    ensures |r| == |s|
    ensures forall i | 0 <= i < |s| :: r[i] as int == s[i] as int
  {
    seq(|s|, i requires 0 <= i < |s| => s[i] as int as byte)
  }

  /** On ASCII text the byte-per-character encoding is the UTF-8 encoding. */
  lemma AsciiBytesAreUtf8(s: string)
    requires IsAscii(s)
    ensures AsciiBytes(s) == Utf8Encode(s)
  {
    Utf8EncodeAscii(s);
  }

  /** ASCII text spelled out byte by byte is its UTF-8 encoding. */
  lemma AsciiSpelling(s: string, b: seq<byte>)
    requires IsAscii(s) && AsciiBytes(s) == b
    ensures Utf8Encode(s) == b
  {
    AsciiBytesAreUtf8(s);
  }

  /** No character of `s` is NUL: a C string literal holding `s` ends where `s` does. */
  predicate NoNul(s: string)
  {
    forall i | 0 <= i < |s| :: s[i] != '\0'
  }

  /** Printable-range text as C string literals hold it: 7-bit ASCII with no NUL. */
  predicate Plain(s: string)
  {
    forall i | 0 <= i < |s| :: '\0' < s[i] < '\U{80}'
  }

  lemma PlainIsAsciiNoNul(s: string)
    requires Plain(s)
    ensures IsAscii(s) && NoNul(s)
  {
  }

  /** Only a NUL character encodes to a zero byte. */
  lemma {:induction false} Utf8EncodeNoNul(s: string)
    requires NoNul(s)
    ensures 0 !in Utf8Encode(s)
  {
    if s != [] {
      assert s[0] != '\0';
      Utf8EncodeNoNul(s[1..]);
    }
  }

  /**
   * `raw.decode("utf-8", errors="replace")`, for the ASCII range: each ASCII
   * byte is its character; any other byte becomes U+FFFD.
   */
  function DecodeReplace(raw: seq<byte>): (r: string)
    ensures |r| == |raw|
    ensures forall i | 0 <= i < |raw| && raw[i] < 128 :: r[i] as int == raw[i] as int
  {
    seq(|raw|, i requires 0 <= i < |raw| => if raw[i] < 128 then raw[i] as int as char else '\U{FFFD}')
  }

  /**
   * `raw.decode("utf-8", errors="strict")`, for the ASCII range: `None` stands
   * for the UnicodeDecodeError raised on a byte outside it.
   */
  function DecodeStrict(raw: seq<byte>): (r: Option<string>)
    ensures r.Some? <==> IsAsciiBytes(raw)
    ensures r.Some? ==> r.value == DecodeReplace(raw)
  {
    if IsAsciiBytes(raw) then Some(DecodeReplace(raw)) else None
  }

  /** Decoding inverts encoding on ASCII text. */
  lemma DecodeUtf8Ascii(s: string)
    requires IsAscii(s)
    ensures IsAsciiBytes(Utf8Encode(s))
    ensures DecodeReplace(Utf8Encode(s)) == s
    ensures DecodeStrict(Utf8Encode(s)) == Some(s)
  {
    Utf8EncodeAscii(s);
  }

  /** Encoding inverts decoding on ASCII bytes. */
  lemma EncodeDecodedAscii(raw: seq<byte>)
    requires IsAsciiBytes(raw)
    ensures IsAscii(DecodeReplace(raw))
    ensures Utf8Encode(DecodeReplace(raw)) == raw
  {
    var s := DecodeReplace(raw);
    Utf8EncodeAscii(s);
  }

  function DigitChar(d: nat): (c: char)
    requires d < 10
  {
    ('0' as int + d) as char
  }

  /** The decimal digits of a natural number, most significant first. */
  function NatToDecimal(n: nat): (r: string)
    ensures r != []
    ensures forall i | 0 <= i < |r| :: '0' <= r[i] <= '9'
  {
    if n < 10 then [DigitChar(n)] else NatToDecimal(n / 10) + [DigitChar(n % 10)]
  }

  /** Python's `str(n)` for an `int`: a leading `-` for negative numbers. */
  function IntToDecimal(n: int): (r: string)
    ensures r != [] && (r[0] == '-' <==> n < 0)
    ensures forall i | 1 <= i < |r| :: '0' <= r[i] <= '9'
  {
    if n < 0 then "-" + NatToDecimal(-n) else NatToDecimal(n)
  }

  /** The value of a string of decimal digits. */
  function DecimalValue(s: string): nat
    requires forall i | 0 <= i < |s| :: '0' <= s[i] <= '9'
  {
    if s == [] then 0 else DecimalValue(s[..|s| - 1]) * 10 + (s[|s| - 1] as int - '0' as int)
  }

  /** The decimal rendering is read back as the same number. */
  lemma {:induction false} NatToDecimalRoundTrip(n: nat)
    ensures DecimalValue(NatToDecimal(n)) == n
  {
    if n >= 10 {
      NatToDecimalRoundTrip(n / 10);
      var s := NatToDecimal(n);
      assert s[..|s| - 1] == NatToDecimal(n / 10);
    }
  }

  /** A negative number renders as `-` followed by its magnitude, otherwise digits only. */
  lemma IntToDecimalRoundTrip(n: int)
    ensures n < 0 ==> DecimalValue(IntToDecimal(n)[1..]) == -n
    ensures n >= 0 ==> DecimalValue(IntToDecimal(n)) == n
  {
    if n < 0 {
      NatToDecimalRoundTrip(-n);
      assert IntToDecimal(n)[1..] == NatToDecimal(-n);
    } else {
      NatToDecimalRoundTrip(n);
    }
  }

  /** Concatenation is associative (stated once so that callers need not re-derive it element by element). */
  lemma ConcatAssoc<T>(a: seq<T>, b: seq<T>, c: seq<T>)
    ensures (a + b) + c == a + (b + c)
  {
  }
}
