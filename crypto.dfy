/**
 * The payload cipher envelope: AES-256 in CTR mode (NIST SP 800-38A,
 * section 6.5) under a key that is the lowercase hex MD5 digest (RFC 1321)
 * of a password, framed as `hex(iv):hex(ciphertext)` with the base16
 * alphabet of RFC 4648, section 8.
 *
 * The block cipher and the hash are abstract: `Primitives` carries the MD5
 * digest and the CTR keystream byte at each position. CTR encryption is
 * XOR with that keystream, so the round trip holds for every keystream.
 */
module Crypto {
  import opened Wrappers
  import opened Strings

  type byte = bv8

  const IV_LENGTH: nat := 16
  const ALGORITHM: string := "aes-256-ctr"

  /** A 16-byte initialisation vector (the source draws it at random). */
  type Iv = s: seq<byte> | |s| == IV_LENGTH witness seq(16, _ => 0)

  /** A 16-byte MD5 digest. */
  type Digest = s: seq<byte> | |s| == 16 witness seq(16, _ => 0)

  /**
   * The primitives the codec takes from the platform: MD5 of a password,
   * and the AES-256-CTR keystream byte at a position, for a key and an IV.
   */
  datatype Primitives = Primitives(md5: string -> Digest, keystream: (string, Iv, nat) -> byte)

  const HEX_DIGITS: string := "0123456789abcdef"

  /** A character `Buffer#toString('hex')` emits. */
  predicate IsLowerHexDigit(c: char) {
    '0' <= c <= '9' || 'a' <= c <= 'f'
  }

  function HexDigit(n: int): (c: char)
    requires 0 <= n < 16
    ensures IsLowerHexDigit(c)
  {
    HEX_DIGITS[n]
  }

  /** The value of a hex digit of either case, or -1 for any other character. */
  function HexValue(c: char): (v: int)
    ensures -1 <= v < 16
    ensures v >= 0 <==> ('0' <= c <= '9' || 'a' <= c <= 'f' || 'A' <= c <= 'F')
  {
    if '0' <= c <= '9' then c as int - '0' as int
    else if 'a' <= c <= 'f' then c as int - 'a' as int + 10
    else if 'A' <= c <= 'F' then c as int - 'A' as int + 10
    else -1
  }

  /** Two lowercase hex digits, high nibble first. */
  function ByteHex(b: byte): string {
    [HexDigit(b as int / 16), HexDigit(b as int % 16)]
  }

  /** `Buffer#toString('hex')` */
  function HexEncode(bytes: seq<byte>): (s: string)
    ensures |s| == 2 * |bytes|
    ensures forall k :: 0 <= k < |s| ==> IsLowerHexDigit(s[k])
  {
    if bytes == [] then "" else ByteHex(bytes[0]) + HexEncode(bytes[1..])
  }

  /**
   * `Buffer.from(s, 'hex')` on well-formed input: pairs of hex digits of
   * either case. Anything else is refused.
   */
  function HexDecode(s: string): (r: Option<seq<byte>>)
    ensures r.Some? ==> |s| == 2 * |r.value|
    decreases |s|
  {
    if s == "" then Some([])
    else if |s| == 1 then None
    else
      var hi, lo := HexValue(s[0]), HexValue(s[1]);
      if hi < 0 || lo < 0 then None
      else match HexDecode(s[2..])
        case None => None
        case Some(rest) => Some([(hi * 16 + lo) as byte] + rest)
  }

  /** Text of even length made only of hex digits, of either case, decodes. */
  lemma {:induction false} HexDecodeDefined(s: string)
    requires |s| % 2 == 0 && forall k :: 0 <= k < |s| ==> HexValue(s[k]) >= 0
    ensures HexDecode(s).Some?
    decreases |s|
  {
    if s != "" {
      forall k | 0 <= k < |s| - 2
        ensures HexValue(s[2..][k]) >= 0
      {
        assert s[2..][k] == s[k + 2];
      }
      HexDecodeDefined(s[2..]);
    }
  }

  /** Only text made of hex digits decodes. */
  lemma {:induction false} HexDecodeOnlyDigits(s: string)
    requires HexDecode(s).Some?
    ensures forall k :: 0 <= k < |s| ==> HexValue(s[k]) >= 0
    decreases |s|
  {
    if s != "" {
      HexDecodeOnlyDigits(s[2..]);
      forall k | 2 <= k < |s|
        ensures HexValue(s[k]) >= 0
      {
        assert s[k] == s[2..][k - 2];
      }
    }
  }

  /** Decoding the hex text of a byte string gives the byte string back. */
  lemma {:induction false} HexRoundTrip(bytes: seq<byte>)
    ensures HexDecode(HexEncode(bytes)) == Some(bytes)
  {
    if bytes != [] {
      var b, rest := bytes[0], bytes[1..];
      var h, t := ByteHex(b), HexEncode(rest);
      HexRoundTrip(rest);
      ByteHexRoundTrip(b);
      HexDecodeCons(h, t, b, rest);
      assert [b] + rest == bytes;
    }
  }

  /** Two valid digits in front of decodable text decode to one more byte in front. */
  lemma HexDecodeCons(h: string, t: string, b: byte, rest: seq<byte>)
    requires |h| == 2 && HexValue(h[0]) >= 0 && HexValue(h[1]) >= 0
    requires (HexValue(h[0]) * 16 + HexValue(h[1])) as byte == b
    requires HexDecode(t) == Some(rest)
    ensures HexDecode(h + t) == Some([b] + rest)
  {
    var s := h + t;
    assert s[0] == h[0] && s[1] == h[1] && s[2..] == t;
  }

  /** The two digits of a byte decode to that byte. */
  lemma ByteHexRoundTrip(b: byte)
    ensures var h := ByteHex(b);
      HexValue(h[0]) == b as int / 16 && HexValue(h[1]) == b as int % 16
      && (HexValue(h[0]) * 16 + HexValue(h[1])) as byte == b
  {
    HexValueOfDigit(b as int / 16);
    HexValueOfDigit(b as int % 16);
  }

  lemma HexValueOfDigit(n: int)
    requires 0 <= n < 16
    ensures HexValue(HexDigit(n)) == n
  {
  }

  /** Different byte strings have different hex texts. */
  lemma HexEncodeInjective(a: seq<byte>, b: seq<byte>)
    requires HexEncode(a) == HexEncode(b)
    ensures a == b
  {
    HexRoundTrip(a);
    HexRoundTrip(b);
  }

  /**
   * The cipher key: the hex MD5 digest of the password, 32 characters and
   * so 32 bytes, the key length of AES-256. The same password always gives
   * the same key.
   */
  function DeriveKey(password: string, prim: Primitives): (key: string)
    ensures |key| == 32
    ensures forall k :: 0 <= k < |key| ==> IsLowerHexDigit(key[k])
  {
    HexEncode(prim.md5(password))
  }

  /** CTR mode: each byte is XORed with the keystream byte at its position. */
  function Ctr(data: seq<byte>, key: string, iv: Iv, prim: Primitives): (out: seq<byte>)
    ensures |out| == |data|
    ensures forall k :: 0 <= k < |data| ==> out[k] == data[k] ^ prim.keystream(key, iv, k)
  {
    seq(|data|, k requires 0 <= k < |data| => data[k] ^ prim.keystream(key, iv, k))
  }

  /** CTR under the same key and IV undoes itself. */
  lemma CtrSelfInverse(data: seq<byte>, key: string, iv: Iv, prim: Primitives)
    ensures Ctr(Ctr(data, key, iv, prim), key, iv, prim) == data
  {
    var once := Ctr(data, key, iv, prim);
    var twice := Ctr(once, key, iv, prim);
    forall k | 0 <= k < |data|
      ensures twice[k] == data[k]
    {
      var z := prim.keystream(key, iv, k);
      assert (data[k] ^ z) ^ z == data[k];
    }
  }

  /**
   * `encrypt(text, password)` with the random IV as a parameter; `text` is
   * the UTF-8 encoding of the string. The result is 32 lowercase hex digits
   * of IV, one `:`, and two hex digits per plaintext byte.
   */
  function Encrypt(text: seq<byte>, password: string, iv: Iv, prim: Primitives): (r: string)
    ensures |r| == 2 * IV_LENGTH + 1 + 2 * |text|
    ensures r[2 * IV_LENGTH] == ':'
    ensures forall k :: 0 <= k < |r| && k != 2 * IV_LENGTH ==> IsLowerHexDigit(r[k])
  {
    var key := DeriveKey(password, prim);
    var encrypted := Ctr(text, key, iv, prim);
    HexEncode(iv) + ":" + HexEncode(encrypted)
  }

  datatype CryptoError =
    | InvalidIv          // the IV segment does not decode to 16 bytes
    | MissingCiphertext  // no `:`, so the ciphertext segment is undefined
    | MalformedHex       // the ciphertext segment is not hex

  /**
   * `decrypt(text, password)`: the IV is the text before the first `:`, the
   * ciphertext the text between the first and the second `:`; anything
   * after is ignored. The result is the UTF-8 bytes of the plaintext.
   */
  function Decrypt(text: string, password: string, prim: Primitives): (r: Result<seq<byte>, CryptoError>)
    ensures r.Ok? <==>
      && HexDecode(Split(text, ':')[0]).Some?
      && |HexDecode(Split(text, ':')[0]).value| == IV_LENGTH
      && |Split(text, ':')| >= 2
      && HexDecode(Split(text, ':')[1]).Some?
    ensures r.Ok? ==> 2 * |r.value| == |Split(text, ':')[1]|
    ensures r.Ok? ==> r.value == Ctr(HexDecode(Split(text, ':')[1]).value, DeriveKey(password, prim),
                                     HexDecode(Split(text, ':')[0]).value, prim)
    ensures (r.Err? && HexDecode(Split(text, ':')[0]).Some? && |HexDecode(Split(text, ':')[0]).value| == IV_LENGTH
             && |Split(text, ':')| < 2) ==> r.error == MissingCiphertext
  {
    var parts := Split(text, ':');
    var key := DeriveKey(password, prim);
    match HexDecode(parts[0])
    case None => Err(InvalidIv)
    case Some(ivBytes) =>
      if |ivBytes| != IV_LENGTH then Err(InvalidIv)
      else if |parts| < 2 then Err(MissingCiphertext)
      else match HexDecode(parts[1])
        case None => Err(MalformedHex)
        case Some(content) => Ok(Ctr(content, key, ivBytes, prim))
  }

  /** The round trip: decrypting an envelope with its password gives the plaintext back. */
  lemma {:induction false} DecryptEncrypt(text: seq<byte>, password: string, iv: Iv, prim: Primitives)
    ensures Decrypt(Encrypt(text, password, iv, prim), password, prim) == Ok(text)
  {
    var key := DeriveKey(password, prim);
    var ct := Ctr(text, key, iv, prim);
    NoSeparatorInHex(iv);
    NoSeparatorInHex(ct);
    SplitAtFirst(HexEncode(iv), ':', HexEncode(ct));
    SplitWithoutSeparator(HexEncode(ct), ':');
    assert HexEncode(iv) + ":" + HexEncode(ct) == HexEncode(iv) + [':'] + HexEncode(ct);
    HexRoundTrip(iv);
    HexRoundTrip(ct);
    CtrSelfInverse(text, key, iv, prim);
  }

  /** Hex text never contains the separator. */
  lemma NoSeparatorInHex(bytes: seq<byte>)
    ensures ':' !in HexEncode(bytes)
  {
  }

  /**
   * The envelope carries no integrity tag: decrypting with any password
   * succeeds and yields as many bytes as were encrypted.
   */
  lemma {:induction false} WrongPasswordUndetected(text: seq<byte>, password: string, other: string, iv: Iv, prim: Primitives)
    ensures var r := Decrypt(Encrypt(text, password, iv, prim), other, prim);
      r.Ok? && |r.value| == |text|
  {
    var key := DeriveKey(password, prim);
    var ct := Ctr(text, key, iv, prim);
    NoSeparatorInHex(iv);
    NoSeparatorInHex(ct);
    SplitAtFirst(HexEncode(iv), ':', HexEncode(ct));
    SplitWithoutSeparator(HexEncode(ct), ':');
    assert HexEncode(iv) + ":" + HexEncode(ct) == HexEncode(iv) + [':'] + HexEncode(ct);
    HexRoundTrip(iv);
    HexRoundTrip(ct);
  }

  /** Segments after the second `:` play no part in decryption. */
  lemma {:induction false} DecryptIgnoresTrailingSegments(iv: string, content: string, tail: string, password: string, prim: Primitives)
    requires ':' !in iv && ':' !in content
    ensures Decrypt(iv + ":" + content + ":" + tail, password, prim) == Decrypt(iv + ":" + content, password, prim)
  {
    assert iv + ":" + content + ":" + tail == iv + [':'] + (content + [':'] + tail);
    assert iv + ":" + content == iv + [':'] + content;
    SplitAtFirst(iv, ':', content + [':'] + tail);
    SplitAtFirst(content, ':', tail);
    SplitAtFirst(iv, ':', content);
    SplitWithoutSeparator(content, ':');
  }

  /** Text without a `:` is never a valid envelope. */
  lemma {:induction false} DecryptNeedsSeparator(text: string, password: string, prim: Primitives)
    requires ':' !in text
    ensures Decrypt(text, password, prim).Err?
  {
    SplitWithoutSeparator(text, ':');
  }

  /**
   * Encryptions of the same plaintext under different IVs differ, already
   * in their first 32 characters.
   */
  lemma DistinctIvsDistinctEnvelopes(text: seq<byte>, password: string, iv1: Iv, iv2: Iv, prim: Primitives)
    requires iv1 != iv2
    ensures Encrypt(text, password, iv1, prim)[..2 * IV_LENGTH] != Encrypt(text, password, iv2, prim)[..2 * IV_LENGTH]
  {
    var key := DeriveKey(password, prim);
    var e1 := Encrypt(text, password, iv1, prim);
    var e2 := Encrypt(text, password, iv2, prim);
    assert e1[..2 * IV_LENGTH] == HexEncode(iv1);
    assert e2[..2 * IV_LENGTH] == HexEncode(iv2);
    if HexEncode(iv1) == HexEncode(iv2) {
      HexEncodeInjective(iv1, iv2);
    }
  }
}
