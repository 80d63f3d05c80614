/**
 * The base64 codec of the native example library: the standard alphabet of
 * section 4 of RFC 4648, `=` padding, no line breaks (section 3.1). The
 * decoder is strict about length, alphabet and where `=` may stand, but it
 * does not insist that the bits a padded block leaves over are zero (which
 * section 3.5 permits), so it accepts more than one spelling of some inputs.
 *
 * The source computes with `uint32_t` shifts and masks. Every intermediate
 * value is below 2^24, so `(v >> s) & 63` is written here as
 * `v / 2^s % 64`, and the bitwise `|` of fields that occupy disjoint bit
 * ranges as `+`.
 */
module Base64Codec {
  import opened TextBytes

  /** `kAlphabet`: the 64 characters of Table 1 of RFC 4648, in index order. */
  const Alphabet: string := Upper + Lower + Digits + "+/"

  const Upper: string := "ABCDEFGHIJKLMNOPQRSTUVWXYZ"
  const Lower: string := "abcdefghijklmnopqrstuvwxyz"
  const Digits: string := "0123456789"

  /** The padding character `=`. */
  const Pad: byte := 61

  /**
   * `kAlphabet[k]` as the byte the encoder stores, computed from the four
   * runs of the alphabet; `AlphabetByteIsLiteral` shows it is the character
   * at index `k` of `Alphabet`.
   */
  function AlphabetByte(k: nat): (c: byte)
    requires k < 64
    ensures c != Pad
  {
    if k < 26 then ('A' as int + k) as byte
    else if k < 52 then ('a' as int + (k - 26)) as byte
    else if k < 62 then ('0' as int + (k - 52)) as byte
    else if k == 62 then '+' as byte
    else '/' as byte
  }

  /** The byte stored for index `k` is the character at index `k` of the alphabet literal. */
  lemma AlphabetByteIsLiteral(k: nat)
    requires k < 64
    ensures AlphabetByte(k) as int == Alphabet[k] as int
  {
    if k < 26 {
      UpperRun(k);
    } else if k < 52 {
      LowerRun(k - 26);
    } else if k < 62 {
      DigitRun(k - 52);
    }
  }

  // Local helpers of AlphabetByteIsLiteral: the three runs of the alphabet
  // literal are consecutive character codes.

  lemma UpperRun(j: nat)
    requires j < 26
    ensures Upper[j] as int == 'A' as int + j
  {
  }

  lemma LowerRun(j: nat)
    requires j < 26
    ensures Lower[j] as int == 'a' as int + j
  {
  }

  lemma DigitRun(j: nat)
    requires j < 10
    ensures Digits[j] as int == '0' as int + j
  {
  }

  /** `c` is one of the 64 alphabet characters. */
  predicate InAlphabet(c: byte)
  {
    exists k | 0 <= k < 64 :: AlphabetByte(k) == c
  }

  /** `b64_value`: the index of `c` in the alphabet, or -1. */
  function B64Value(c: byte): (v: int)
    ensures -1 <= v < 64
  {
    if 'A' as byte <= c <= 'Z' as byte then (c - 'A' as byte) as int
    else if 'a' as byte <= c <= 'z' as byte then (c - 'a' as byte) as int + 26
    else if '0' as byte <= c <= '9' as byte then (c - '0' as byte) as int + 52
    else if c == '+' as byte then 62
    else if c == '/' as byte then 63
    else -1
  }

  /** `b64_value` inverts the indexing of `kAlphabet`. */
  lemma ValueOfAlphabet(k: nat)
    requires k < 64
    ensures B64Value(AlphabetByte(k)) == k
  {
  }

  /** `b64_value` finds exactly the alphabet characters, and finds them at their index. */
  lemma ValueFindsAlphabet(c: byte)
    ensures B64Value(c) >= 0 <==> InAlphabet(c)
    ensures B64Value(c) >= 0 ==> AlphabetByte(B64Value(c)) == c
    ensures B64Value(Pad) == -1
  {
  }

  // ---------------------------------------------------------------------
  // Encoding

  /** The divisor that shifts sextet `i` (counted from the top) of a 24-bit group down to the bottom. */
  function SextetShift(i: int): int
  {
    if i == 0 then 262144 else if i == 1 then 4096 else if i == 2 then 64 else 1
  }

  /** The alphabet characters for the top `n` sextets of the 24-bit group `v`. */
  function Sextets(v: int, n: nat): seq<byte>
  {
    seq(n, i => AlphabetByte(v / SextetShift(i) % 64))
  }

  /** The four characters for a full group `d0 d1 d2`. */
  function EncodeGroup(d0: byte, d1: byte, d2: byte): (r: seq<byte>)
    ensures |r| == 4
  {
    Sextets(d0 as int * 65536 + d1 as int * 256 + d2 as int, 4)
  }

  /** The four characters for a 1-byte tail: two sextets and `==`. */
  function EncodeTail1(d0: byte): (r: seq<byte>)
    ensures |r| == 4
  {
    Sextets(d0 as int * 65536, 2) + [Pad, Pad]
  }

  /** The four characters for a 2-byte tail: three sextets and `=`. */
  function EncodeTail2(d0: byte, d1: byte): (r: seq<byte>)
    ensures |r| == 4
  {
    Sextets(d0 as int * 65536 + d1 as int * 256, 3) + [Pad]
  }

  /** The characters of a group or tail written out. */
  lemma SextetsSpelled(v: int)
    ensures var a0, a1 := AlphabetByte(v / 262144 % 64), AlphabetByte(v / 4096 % 64);
      var a2, a3 := AlphabetByte(v / 64 % 64), AlphabetByte(v % 64);
      && Sextets(v, 4) == [a0, a1, a2, a3]
      && Sextets(v, 3) + [Pad] == [a0, a1, a2, Pad]
      && Sextets(v, 2) + [Pad, Pad] == [a0, a1, Pad, Pad]
  {
  }

  /** Four characters for every started group of three bytes: `4 * ceil(n / 3)`. */
  function EncodedLength(n: nat): nat
  {
    4 * ((n + 2) / 3)
  }

  /**
   * The encoded length is a whole number of four-character groups, and the
   * fewest whose three bytes each hold `n` bytes.
   */
  lemma EncodedLengthFits(n: nat)
    ensures EncodedLength(n) % 4 == 0
    ensures n <= 3 * (EncodedLength(n) / 4) < n + 3
  {
  }

  /** `b64_encode_bytes` on the bytes it is given: four characters per started group of three. */
  function Encode(data: seq<byte>): (r: seq<byte>)
    ensures |r| == EncodedLength(|data|)
  {
    if |data| >= 3 then
      assert (|data[3..]| + 2) / 3 == (|data| + 2) / 3 - 1;
      EncodeGroup(data[0], data[1], data[2]) + Encode(data[3..])
    else if |data| == 2 then EncodeTail2(data[0], data[1])
    else if |data| == 1 then EncodeTail1(data[0])
    else []
  }

  /** The first group of `data` in front of the encoding of the rest. */
  lemma EncodeFront(data: seq<byte>)
    requires |data| >= 3
    ensures Encode(data) == EncodeGroup(data[0], data[1], data[2]) + Encode(data[3..])
  {
  }

  /** How many `=` end the encoding of `n` bytes. */
  function PadCount(n: nat): nat
  {
    if n % 3 == 1 then 2 else if n % 3 == 2 then 1 else 0
  }

  /** A full group encodes to four alphabet characters. */
  lemma GroupInAlphabet(d0: byte, d1: byte, d2: byte)
    ensures forall i | 0 <= i < 4 ::
      EncodeGroup(d0, d1, d2)[i] != Pad && InAlphabet(EncodeGroup(d0, d1, d2)[i])
  {
  }

  /** The encoding only uses alphabet characters and `=`, and `=` only as its last `k` characters. */
  ghost predicate PaddedAlphabetText(r: seq<byte>, k: nat)
  {
    && (forall i | 0 <= i < |r| :: r[i] == Pad <==> i >= |r| - k)
    && (forall i | 0 <= i < |r| :: r[i] != Pad ==> InAlphabet(r[i]))
  }

  /** A 1-byte tail encodes to two alphabet characters and `==`. */
  lemma Tail1InAlphabet(d0: byte)
    ensures PaddedAlphabetText(EncodeTail1(d0), 2)
  {
  }

  /** A 2-byte tail encodes to three alphabet characters and `=`. */
  lemma Tail2InAlphabet(d0: byte, d1: byte)
    ensures PaddedAlphabetText(EncodeTail2(d0, d1), 1)
  {
  }

  /** After a full group, `=` still stands exactly in the last `PadCount` places. */
  lemma GroupThenPads(data: seq<byte>)
    requires |data| >= 3
    requires PaddedAlphabetText(Encode(data[3..]), PadCount(|data| - 3))
    ensures forall i | 0 <= i < |Encode(data)| ::
      Encode(data)[i] == Pad <==> i >= |Encode(data)| - PadCount(|data|)
  {
  }

  /** After a full group, every character other than `=` is still an alphabet character. */
  lemma GroupThenAlphabet(data: seq<byte>)
    requires |data| >= 3
    requires PaddedAlphabetText(Encode(data[3..]), PadCount(|data| - 3))
    ensures forall i | 0 <= i < |Encode(data)| ::
      Encode(data)[i] != Pad ==> InAlphabet(Encode(data)[i])
  {
  }

  /**
   * The encoder emits alphabet characters only, except for `==` after a
   * 1-byte tail or `=` after a 2-byte tail, and `=` nowhere else.
   */
  lemma {:induction false} EncodeAlphabetOnly(data: seq<byte>)
    ensures PaddedAlphabetText(Encode(data), PadCount(|data|))
  {
    if |data| >= 3 {
      EncodeAlphabetOnly(data[3..]);
      GroupThenPads(data);
      GroupThenAlphabet(data);
    } else if |data| == 2 {
      Tail2InAlphabet(data[0], data[1]);
    } else if |data| == 1 {
      Tail1InAlphabet(data[0]);
    }
  }

  /** "foo" is the group "Zm9v". */
  lemma GroupVectorFoo()
    ensures EncodeGroup(102, 111, 111) == [90, 109, 57, 118]
  {
    var foo := 102 * 65536 + 111 * 256 + 111;
    SextetsSpelled(foo);
    assert foo / 262144 % 64 == 25 && foo / 4096 % 64 == 38 && foo / 64 % 64 == 61 && foo % 64 == 47;
  }

  /** "bar" is the group "YmFy". */
  lemma GroupVectorBar()
    ensures EncodeGroup(98, 97, 114) == [89, 109, 70, 121]
  {
    var bar := 98 * 65536 + 97 * 256 + 114;
    SextetsSpelled(bar);
    assert bar / 262144 % 64 == 24 && bar / 4096 % 64 == 38 && bar / 64 % 64 == 5 && bar % 64 == 50;
  }

  /** The tails "f" and "fo" encode to "Zg==" and "Zm8=". */
  lemma TailVectorsF()
    ensures EncodeTail1(102) == [90, 103, 61, 61]
    ensures EncodeTail2(102, 111) == [90, 109, 56, 61]
  {
    var f := 102 * 65536;
    SextetsSpelled(f);
    assert f / 262144 % 64 == 25 && f / 4096 % 64 == 32;
    var fo := 102 * 65536 + 111 * 256;
    SextetsSpelled(fo);
    assert fo / 262144 % 64 == 25 && fo / 4096 % 64 == 38 && fo / 64 % 64 == 60;
  }

  /** The tails "b" and "ba" encode to "Yg==" and "YmE=". */
  lemma TailVectorsB()
    ensures EncodeTail1(98) == [89, 103, 61, 61]
    ensures EncodeTail2(98, 97) == [89, 109, 69, 61]
  {
    var b := 98 * 65536;
    SextetsSpelled(b);
    assert b / 262144 % 64 == 24 && b / 4096 % 64 == 32;
    var ba := 98 * 65536 + 97 * 256;
    SextetsSpelled(ba);
    assert ba / 262144 % 64 == 24 && ba / 4096 % 64 == 38 && ba / 64 % 64 == 4;
  }

  /** The test vectors "f", "fo" and "foo" of section 10 of RFC 4648, as bytes. */
  lemma EncodeVectorBytesShort()
    ensures Encode([102]) == [90, 103, 61, 61]
    ensures Encode([102, 111]) == [90, 109, 56, 61]
    ensures Encode([102, 111, 111]) == [90, 109, 57, 118]
  {
    GroupVectorFoo();
    TailVectorsF();
    var foo: seq<byte> := [102, 111, 111];
    assert Encode(foo) == EncodeGroup(102, 111, 111) + Encode(foo[3..]);
  }

  /** The test vectors "foob", "fooba" and "foobar" of section 10 of RFC 4648, as bytes. */
  lemma EncodeVectorBytesLong()
    ensures Encode([102, 111, 111, 98]) == [90, 109, 57, 118, 89, 103, 61, 61]
    ensures Encode([102, 111, 111, 98, 97]) == [90, 109, 57, 118, 89, 109, 69, 61]
    ensures Encode([102, 111, 111, 98, 97, 114]) == [90, 109, 57, 118, 89, 109, 70, 121]
  {
    GroupVectorFoo();
    GroupVectorBar();
    TailVectorsB();
    var foob: seq<byte> := [102, 111, 111, 98];
    var fooba: seq<byte> := [102, 111, 111, 98, 97];
    var foobar: seq<byte> := [102, 111, 111, 98, 97, 114];
    var bar := foobar[3..];
    assert Encode(bar) == EncodeGroup(98, 97, 114) + Encode(bar[3..]);
    assert Encode(foob) == EncodeGroup(102, 111, 111) + Encode(foob[3..]);
    assert Encode(fooba) == EncodeGroup(102, 111, 111) + Encode(fooba[3..]);
    assert Encode(foobar) == EncodeGroup(102, 111, 111) + Encode(bar);
  }

  // Local helpers of EncodeTestVectors: the byte spellings of the vector
  // strings, a few at a time so that each proof stays small.

  /** The ASCII spellings of the shorter test vector inputs. */
  lemma ShortInputSpellings()
    ensures Utf8Encode("f") == [102] && Utf8Encode("fo") == [102, 111]
    ensures Utf8Encode("foo") == [102, 111, 111]
  {
    AsciiSpelling("f", [102]);
    AsciiSpelling("fo", [102, 111]);
    AsciiSpelling("foo", [102, 111, 111]);
  }

  /** The ASCII spellings of the longer test vector inputs. */
  lemma LongInputSpellings()
    ensures Utf8Encode("foob") == [102, 111, 111, 98]
    ensures Utf8Encode("fooba") == [102, 111, 111, 98, 97]
  {
    AsciiSpelling("foob", [102, 111, 111, 98]);
    AsciiSpelling("fooba", [102, 111, 111, 98, 97]);
  }

  lemma FoobarSpelling()
    ensures Utf8Encode("foobar") == [102, 111, 111, 98, 97, 114]
  {
    AsciiSpelling("foobar", [102, 111, 111, 98, 97, 114]);
  }

  /** The ASCII spellings of the four-character test vector outputs. */
  lemma ShortOutputSpellings()
    ensures Utf8Encode("Zg==") == [90, 103, 61, 61] && Utf8Encode("Zm8=") == [90, 109, 56, 61]
    ensures Utf8Encode("Zm9v") == [90, 109, 57, 118]
  {
    AsciiSpelling("Zg==", [90, 103, 61, 61]);
    AsciiSpelling("Zm8=", [90, 109, 56, 61]);
    AsciiSpelling("Zm9v", [90, 109, 57, 118]);
  }

  /** The ASCII spellings of the eight-character test vector outputs. */
  lemma FoobSpelling()
    ensures Utf8Encode("Zm9vYg==") == [90, 109, 57, 118, 89, 103, 61, 61]
  {
    AsciiSpelling("Zm9vYg==", [90, 109, 57, 118, 89, 103, 61, 61]);
  }

  lemma FoobaSpelling()
    ensures Utf8Encode("Zm9vYmE=") == [90, 109, 57, 118, 89, 109, 69, 61]
  {
    AsciiSpelling("Zm9vYmE=", [90, 109, 57, 118, 89, 109, 69, 61]);
  }

  lemma FoobarOutputSpelling()
    ensures Utf8Encode("Zm9vYmFy") == [90, 109, 57, 118, 89, 109, 70, 121]
  {
    AsciiSpelling("Zm9vYmFy", [90, 109, 57, 118, 89, 109, 70, 121]);
  }

  /** The test vectors of section 10 of RFC 4648. */
  lemma EncodeTestVectors()
    ensures Encode(Utf8Encode("")) == Utf8Encode("")
    ensures Encode(Utf8Encode("f")) == Utf8Encode("Zg==")
    ensures Encode(Utf8Encode("fo")) == Utf8Encode("Zm8=")
    ensures Encode(Utf8Encode("foo")) == Utf8Encode("Zm9v")
    ensures Encode(Utf8Encode("foob")) == Utf8Encode("Zm9vYg==")
    ensures Encode(Utf8Encode("fooba")) == Utf8Encode("Zm9vYmE=")
    ensures Encode(Utf8Encode("foobar")) == Utf8Encode("Zm9vYmFy")
  {
    EncodeVectorBytesShort();
    EncodeVectorBytesLong();
    ShortInputSpellings();
    LongInputSpellings();
    FoobarSpelling();
    ShortOutputSpellings();
    FoobSpelling();
    FoobaSpelling();
    FoobarOutputSpelling();
  }

  // ---------------------------------------------------------------------
  // Decoding

  /** The value of a character in the third or fourth place of a block: -2 for `=`. */
  function PadOrValue(c: byte): (v: int)
    ensures -2 <= v < 64
    ensures v == -2 <==> c == Pad
    ensures v == -1 <==> c != Pad && !InAlphabet(c)
  {
    ValueFindsAlphabet(c);
    if c == Pad then -2 else B64Value(c)
  }

  /** The place value of a 6-bit digit: `q * 64 + r` has quotient `q` and remainder `r`. */
  lemma Place64(q: int, r: int)
    requires 0 <= r < 64
    ensures (q * 64 + r) / 64 == q && (q * 64 + r) % 64 == r
  {
  }

  /**
   * The 24 bits of a block: `v0 << 18 | v1 << 12`, then `v2 << 6` and `v3`
   * unless they stand for `=` (-2). Its four 6-bit fields, from the bottom
   * up, are `v3`, `v2` (or 0 for `=`), `v1` and `v0`.
   */
  function Triple(v0: int, v1: int, v2: int, v3: int): (t: int)
    requires 0 <= v0 < 64 && 0 <= v1 < 64 && -2 <= v2 < 64 && -2 <= v3 < 64
    ensures 0 <= t < 0x100_0000
    ensures t / 64 / 64 / 64 == v0 && t / 64 / 64 % 64 == v1
    ensures t / 64 % 64 == (if v2 >= 0 then v2 else 0) && t % 64 == (if v3 >= 0 then v3 else 0)
  {
    var a2, a3 := (if v2 >= 0 then v2 else 0), (if v3 >= 0 then v3 else 0);
    Place64(v0 * 64 + v1, a2);
    Place64((v0 * 64 + v1) * 64 + a2, a3);
    Place64(v0, v1);
    v0 * 262144 + v1 * 4096 + (if v2 >= 0 then v2 * 64 else 0) + (if v3 >= 0 then v3 else 0)
  }

  /** The divisor that shifts byte `i` (counted from the top) of a 24-bit triple down to the bottom. */
  function ShiftOf(i: int): int
  {
    if i == 0 then 65536 else if i == 1 then 256 else 1
  }

  /**
   * The bytes a block pushes: the top byte of `triple`, then one more for
   * each of `c2`, `c3` that is not `=`, taken from the top down.
   */
  function TripleBytes(triple: int, c2: byte, c3: byte): (r: seq<byte>)
    ensures 1 <= |r| <= 3
    ensures c2 != Pad && c3 != Pad <==> |r| == 3
    ensures c2 == Pad && c3 == Pad ==> |r| == 1
  {
    var n := 1 + (if c2 != Pad then 1 else 0) + (if c3 != Pad then 1 else 0);
    seq(n, i => (triple / ShiftOf(i) % 256) as byte)
  }

  /** The bytes of a block written out, for each way it can end. */
  lemma TripleBytesSpelled(triple: int, c2: byte, c3: byte)
    ensures var b0, b1, b2 := (triple / 65536 % 256) as byte, (triple / 256 % 256) as byte, (triple % 256) as byte;
      && (c2 != Pad && c3 != Pad ==> TripleBytes(triple, c2, c3) == [b0, b1, b2])
      && (c2 != Pad && c3 == Pad ==> TripleBytes(triple, c2, c3) == [b0, b1])
      && (c2 == Pad && c3 == Pad ==> TripleBytes(triple, c2, c3) == [b0])
  {
  }

  /**
   * One block `c0 c1 c2 c3` of `b64_decode_string`: the bytes it yields, or
   * `None` when one of its characters is rejected or `=` is followed by a
   * non-`=`. Whether a padded block is the last one is checked by the caller.
   */
  function DecodeBlock(c0: byte, c1: byte, c2: byte, c3: byte): (r: Option<seq<byte>>)
    ensures r.Some? ==> InAlphabet(c0) && InAlphabet(c1) && 1 <= |r.value| <= 3
    ensures r.Some? ==> (|r.value| == 3 <==> c2 != Pad && c3 != Pad)
  {
    ValueFindsAlphabet(c0);
    ValueFindsAlphabet(c1);
    var v0, v1 := B64Value(c0), B64Value(c1);
    if v0 < 0 || v1 < 0 then None
    else
      var v2, v3 := PadOrValue(c2), PadOrValue(c3);
      if v2 == -1 || v3 == -1 then None
      else if c2 == Pad && c3 != Pad then None
      else Some(TripleBytes(Triple(v0, v1, v2, v3), c2, c3))
  }

  /** The blocks of `s` from the front; a block holding `=` must be the last one. */
  function DecodeBlocks(s: seq<byte>): (r: Option<seq<byte>>)
    requires |s| % 4 == 0
  {
    if s == [] then Some([])
    else
      match DecodeBlock(s[0], s[1], s[2], s[3])
      case None => None
      case Some(bytes) =>
        if (s[2] == Pad || s[3] == Pad) && |s| != 4 then None
        else
          match DecodeBlocks(s[4..])
          case None => None
          case Some(rest) => Some(bytes + rest)
  }

  /** `b64_decode_string`: `None` where the source returns false. */
  function Decode(s: seq<byte>): (r: Option<seq<byte>>)
  {
    if |s| % 4 != 0 then None else DecodeBlocks(s)
  }

  /**
   * The inputs the decoder accepts, stated without reference to the decoder:
   * a multiple of four characters, all from the alphabet except for `=` in the
   * last two places, and `=` in the second-to-last place only when the last
   * is `=` too.
   */
  ghost predicate ValidBase64(s: seq<byte>)
  {
    && |s| % 4 == 0
    && (forall i | 0 <= i < |s| :: InAlphabet(s[i]) || (s[i] == Pad && i >= |s| - 2))
    && (|s| >= 2 && s[|s| - 2] == Pad ==> s[|s| - 1] == Pad)
  }

  /** A single block is accepted exactly when its characters are. */
  lemma BlockAccepts(c0: byte, c1: byte, c2: byte, c3: byte)
    ensures DecodeBlock(c0, c1, c2, c3).Some? <==>
      && InAlphabet(c0) && InAlphabet(c1)
      && (InAlphabet(c2) || c2 == Pad) && (InAlphabet(c3) || c3 == Pad)
      && (c2 == Pad ==> c3 == Pad)
  {
  }

  /** The characters of a block are acceptable on their own. */
  predicate BlockCharsOk(c0: byte, c1: byte, c2: byte, c3: byte)
  {
    && InAlphabet(c0) && InAlphabet(c1)
    && (InAlphabet(c2) || c2 == Pad) && (InAlphabet(c3) || c3 == Pad)
    && (c2 == Pad ==> c3 == Pad)
  }

  /** Valid text is a valid first block, last if it is padded, followed by valid text. */
  lemma ValidSplit(s: seq<byte>)
    requires |s| >= 4 && |s| % 4 == 0
    ensures ValidBase64(s) <==>
      && BlockCharsOk(s[0], s[1], s[2], s[3])
      && ((s[2] == Pad || s[3] == Pad) ==> |s| == 4)
      && ValidBase64(s[4..])
  {
  }

  /** The decoder accepts exactly the valid texts. */
  lemma {:induction false} DecodeBlocksAcceptsValid(s: seq<byte>)
    requires |s| % 4 == 0
    ensures DecodeBlocks(s).Some? <==> ValidBase64(s)
    decreases |s|
  {
    if s != [] {
      DecodeBlocksAcceptsValid(s[4..]);
      BlockAccepts(s[0], s[1], s[2], s[3]);
      ValidSplit(s);
    }
  }

  /**
   * `b64_decode_string` returns true exactly on valid text: it returns false
   * when the length is not a multiple of four, when the first or second
   * character of a block is not in the alphabet, when the third or fourth is
   * neither in the alphabet nor `=`, when `=` is followed by a non-`=`, and
   * when a block holding `=` is not the last one.
   */
  lemma DecodeAcceptsValid(s: seq<byte>)
    ensures Decode(s).Some? <==> ValidBase64(s)
  {
    if |s| % 4 == 0 {
      DecodeBlocksAcceptsValid(s);
    }
  }

  /** The five ways `b64_decode_string` returns false, each pinned to a position `i`. */
  lemma DecodeRejects(s: seq<byte>, i: nat)
    requires i < |s|
    ensures |s| % 4 != 0 ==> Decode(s) == None
    ensures i % 4 < 2 && !InAlphabet(s[i]) ==> Decode(s) == None
    ensures i % 4 >= 2 && !InAlphabet(s[i]) && s[i] != Pad ==> Decode(s) == None
    ensures i % 4 == 2 && i + 1 < |s| && s[i] == Pad && s[i + 1] != Pad ==> Decode(s) == None
    ensures s[i] == Pad && i < |s| - 4 ==> Decode(s) == None
  {
    DecodeAcceptsValid(s);
    if Decode(s).Some? && |s| >= 2 && i % 4 == 2 && i + 1 < |s| && s[i] == Pad {
      assert i >= |s| - 2;
      assert i == |s| - 2;
    }
  }

  /** A block that decodes yields one byte, plus one for each of its last two places that is not `=`. */
  lemma BlockLength(c0: byte, c1: byte, c2: byte, c3: byte)
    requires DecodeBlock(c0, c1, c2, c3).Some?
    ensures c0 != Pad && c1 != Pad
    ensures |DecodeBlock(c0, c1, c2, c3).value| ==
      1 + (if c2 != Pad then 1 else 0) + (if c3 != Pad then 1 else 0)
  {
  }

  /** The decoded length is three bytes per block, less one per `=`. */
  lemma {:induction false} DecodedLength(s: seq<byte>)
    requires Decode(s).Some?
    ensures |Decode(s).value| == 3 * (|s| / 4) - multiset(s)[Pad]
    decreases |s|
  {
    if s != [] {
      var rest := s[4..];
      BlockLength(s[0], s[1], s[2], s[3]);
      assert Decode(rest) == DecodeBlocks(rest);
      DecodedLength(rest);
      assert s == [s[0], s[1], s[2], s[3]] + rest;
      assert multiset(s) == multiset([s[0], s[1], s[2], s[3]]) + multiset(rest);
    }
  }

  // ---------------------------------------------------------------------
  // Round trip

  /** A 24-bit value is the sum of its four sextets in place. */
  lemma SextetSplit(v: int)
    requires 0 <= v < 16777216
    ensures v == v / 262144 % 64 * 262144 + v / 4096 % 64 * 4096 + v / 64 % 64 * 64 + v % 64
  {
    var q := v / 64;
    assert v == q * 64 + v % 64;
    var q2 := q / 64;
    assert q == q2 * 64 + q % 64;
    assert v / 4096 == q2;
    var q3 := q2 / 64;
    assert q2 == q3 * 64 + q2 % 64;
    assert v / 262144 == q3;
  }

  /** A 24-bit value built from three bytes gives them back. */
  lemma OctetSplit(d0: byte, d1: byte, d2: byte)
    ensures var v := d0 as int * 65536 + d1 as int * 256 + d2 as int;
      v / 65536 % 256 == d0 as int && v / 256 % 256 == d1 as int && v % 256 == d2 as int
  {
    var hi := d0 as int * 256 + d1 as int;
    Place256(hi, d2 as int);
    Place256(d0 as int, d1 as int);
    Place65536(d0 as int, d1 as int * 256 + d2 as int);
  }

  /** The place value of a byte: `q * 256 + r` has quotient `q` and remainder `r`. */
  lemma Place256(q: int, r: int)
    requires 0 <= r < 256
    ensures (q * 256 + r) / 256 == q && (q * 256 + r) % 256 == r
  {
  }

  /** The place value of two bytes. */
  lemma Place65536(q: int, r: int)
    requires 0 <= r < 65536
    ensures (q * 65536 + r) / 65536 == q
  {
  }

  /** A full group decodes back to its three bytes. */
  lemma GroupRoundTrip(d0: byte, d1: byte, d2: byte)
    ensures var g := EncodeGroup(d0, d1, d2);
      DecodeBlock(g[0], g[1], g[2], g[3]) == Some([d0, d1, d2]) && g[2] != Pad && g[3] != Pad
  {
    var v := d0 as int * 65536 + d1 as int * 256 + d2 as int;
    var k0, k1, k2, k3 := v / 262144 % 64, v / 4096 % 64, v / 64 % 64, v % 64;
    var g := EncodeGroup(d0, d1, d2);
    SextetsSpelled(v);
    assert g == [AlphabetByte(k0), AlphabetByte(k1), AlphabetByte(k2), AlphabetByte(k3)];
    ValueOfAlphabet(k0);
    ValueOfAlphabet(k1);
    ValueOfAlphabet(k2);
    ValueOfAlphabet(k3);
    assert PadOrValue(g[2]) == k2 && PadOrValue(g[3]) == k3;
    var triple := Triple(k0, k1, k2, k3);
    SextetSplit(v);
    assert triple == v;
    OctetSplit(d0, d1, d2);
    TripleBytesSpelled(triple, g[2], g[3]);
    assert DecodeBlock(g[0], g[1], g[2], g[3]) == Some(TripleBytes(triple, g[2], g[3]));
  }

  /** The sextets of a 1-byte tail put back together. */
  lemma Tail1Sextets(d0: byte)
    ensures var v := d0 as int * 65536;
      v / 262144 % 64 * 262144 + v / 4096 % 64 * 4096 == v
  {
    var v := d0 as int * 65536;
    assert v / 262144 == d0 as int / 4;
    assert v / 4096 == d0 as int * 16;
  }

  /** The sextets of a 2-byte tail put back together. */
  lemma Tail2Sextets(d0: byte, d1: byte)
    ensures var v := d0 as int * 65536 + d1 as int * 256;
      v / 262144 % 64 * 262144 + v / 4096 % 64 * 4096 + v / 64 % 64 * 64 == v
  {
    var v := d0 as int * 65536 + d1 as int * 256;
    SextetSplit(v);
    Place64((d0 as int * 256 + d1 as int) * 4, 0);
  }

  /** A 1-byte tail decodes back to its byte. */
  lemma Tail1RoundTrip(d0: byte)
    ensures var t := EncodeTail1(d0);
      DecodeBlock(t[0], t[1], t[2], t[3]) == Some([d0])
  {
    var v := d0 as int * 65536;
    var k0, k1 := v / 262144 % 64, v / 4096 % 64;
    var t := EncodeTail1(d0);
    SextetsSpelled(v);
    assert t == [AlphabetByte(k0), AlphabetByte(k1), Pad, Pad];
    ValueOfAlphabet(k0);
    ValueOfAlphabet(k1);
    var triple := Triple(k0, k1, -2, -2);
    Tail1Sextets(d0);
    assert triple == v;
    OctetSplit(d0, 0, 0);
    TripleBytesSpelled(triple, Pad, Pad);
    assert DecodeBlock(t[0], t[1], t[2], t[3]) == Some(TripleBytes(triple, Pad, Pad));
  }

  /** A 2-byte tail decodes back to its two bytes. */
  lemma Tail2RoundTrip(d0: byte, d1: byte)
    ensures var t := EncodeTail2(d0, d1);
      DecodeBlock(t[0], t[1], t[2], t[3]) == Some([d0, d1])
  {
    var v := d0 as int * 65536 + d1 as int * 256;
    var k0, k1, k2 := v / 262144 % 64, v / 4096 % 64, v / 64 % 64;
    var t := EncodeTail2(d0, d1);
    SextetsSpelled(v);
    assert t == [AlphabetByte(k0), AlphabetByte(k1), AlphabetByte(k2), Pad];
    ValueOfAlphabet(k0);
    ValueOfAlphabet(k1);
    ValueOfAlphabet(k2);
    assert PadOrValue(t[2]) == k2 && PadOrValue(t[3]) == -2;
    var triple := Triple(k0, k1, k2, -2);
    Tail2Sextets(d0, d1);
    assert triple == v;
    OctetSplit(d0, d1, 0);
    TripleBytesSpelled(triple, t[2], t[3]);
    assert DecodeBlock(t[0], t[1], t[2], t[3]) == Some(TripleBytes(triple, t[2], t[3]));
  }

  /** A lone four-character block decodes as that block. */
  lemma SingleBlockDecode(t: seq<byte>)
    requires |t| == 4 && DecodeBlock(t[0], t[1], t[2], t[3]).Some?
    ensures Decode(t) == DecodeBlock(t[0], t[1], t[2], t[3])
  {
    assert DecodeBlocks(t[4..]) == Some([]);
    var bytes := DecodeBlock(t[0], t[1], t[2], t[3]).value;
    assert bytes + [] == bytes;
    assert DecodeBlocks(t) == Some(bytes + []);
  }

  /** The bytes in front of a decoding that succeeds; failure stays failure. */
  function Prepend(prefix: seq<byte>, r: Option<seq<byte>>): (p: Option<seq<byte>>)
    ensures p.Some? <==> r.Some?
    ensures p.Some? ==> p.value == prefix + r.value
  {
    if r.None? then None else Some(prefix + r.value)
  }

  /** The first block of `s` in front of the blocks after it. */
  lemma DecodeBlocksFront(s: seq<byte>)
    requires |s| >= 4 && |s| % 4 == 0
    ensures |s[4..]| % 4 == 0
    ensures var b, early := DecodeBlock(s[0], s[1], s[2], s[3]), (s[2] == Pad || s[3] == Pad) && |s| != 4;
      DecodeBlocks(s) == if b.None? || early then None else Prepend(b.value, DecodeBlocks(s[4..]))
  {
  }

  /** An unpadded block in front of decodable text decodes block by block. */
  lemma GroupThenDecode(c0: byte, c1: byte, c2: byte, c3: byte, rest: seq<byte>)
    requires c2 != Pad && c3 != Pad
    requires DecodeBlock(c0, c1, c2, c3).Some? && Decode(rest).Some?
    ensures Decode([c0, c1, c2, c3] + rest) == Some(DecodeBlock(c0, c1, c2, c3).value + Decode(rest).value)
  {
  }

  /** Round trip: decoding what the encoder produced succeeds and gives back the input. */
  lemma {:induction false} DecodeEncode(data: seq<byte>)
    ensures Decode(Encode(data)) == Some(data)
    decreases |data|
  {
    if |data| >= 3 {
      DecodeEncode(data[3..]);
      GroupRoundTrip(data[0], data[1], data[2]);
      var g := EncodeGroup(data[0], data[1], data[2]);
      GroupThenDecode(g[0], g[1], g[2], g[3], Encode(data[3..]));
      assert [g[0], g[1], g[2], g[3]] == g;
      assert [data[0], data[1], data[2]] + data[3..] == data;
    } else if |data| == 2 {
      Tail2RoundTrip(data[0], data[1]);
      SingleBlockDecode(EncodeTail2(data[0], data[1]));
      assert [data[0], data[1]] == data;
    } else if |data| == 1 {
      Tail1RoundTrip(data[0]);
      SingleBlockDecode(EncodeTail1(data[0]));
      assert [data[0]] == data;
    }
  }

  /**
   * The decoder does not insist on zero pad bits: "Zh==" decodes to "f",
   * whose encoding is "Zg==", so encoding after decoding is not the identity.
   */
  lemma NonZeroPadBitsAccepted()
    ensures Decode(Utf8Encode("Zh==")) == Some(Utf8Encode("f"))
    ensures Encode(Utf8Encode("f")) != Utf8Encode("Zh==")
  {
    var zh: seq<byte> := [90, 104, 61, 61];
    assert Utf8Encode("Zh==") == zh && Utf8Encode("f") == [102];
    assert B64Value(90) == 25 && B64Value(104) == 33;
    TripleBytesSpelled(25 * 262144 + 33 * 4096, Pad, Pad);
    assert DecodeBlock(90, 104, 61, 61) == Some([102]);
    assert DecodeBlocks(zh[4..]) == Some([]);
    EncodeVectorBytesShort();
  }
}
