/** SHA-256 (FIPS 180-4) and HMAC-SHA256 (RFC 2104) as OpenSSL provides them
    to the signer. The model does not compute them: a `Primitives` value
    carries them as functions, and `Valid` states the one fact the signer
    relies on, that each digest is 32 bytes. Hex output is computed here. */
module Crypto {
  import opened ByteStrings

  datatype Primitives = Primitives(sha256: Bytes -> Bytes, hmacSha256: (Bytes, Bytes) -> Bytes)
  {
    ghost predicate Valid() {
      && (forall m :: |sha256(m)| == 32)
      && (forall k, m :: |hmacSha256(k, m)| == 32)
    }
  }

  predicate IsLowerHex(c: Byte) {
    '0' <= c <= '9' || 'a' <= c <= 'f'
  }

  predicate AllLowerHex(s: Bytes) {
    forall i :: 0 <= i < |s| ==> IsLowerHex(s[i])
  }

  function HexLower(d: nat): (c: Byte)
    requires d < 16
    ensures IsLowerHex(c)
  {
    if d < 10 then DigitChar(d) else ('a' as int + d - 10) as char
  }

  function LowerHexValue(c: Byte): (d: nat)
    requires IsLowerHex(c)
    ensures d < 16 && HexLower(d) == c
  {
    if '0' <= c <= '9' then c as int - '0' as int else c as int - 'a' as int + 10
  }

  /** Lower-case hex, two digits per byte, high nibble first. */
  function Hex(bs: Bytes): (r: Bytes)
    ensures |r| == 2 * |bs|
    ensures AllLowerHex(r)
  {
    if bs == [] then []
    else [HexLower(bs[0] as int / 16), HexLower(bs[0] as int % 16)] + Hex(bs[1..])
  }

  /** Hex decoding, the inverse of `Hex`. */
  function Unhex(s: Bytes): Bytes
    requires |s| % 2 == 0 && AllLowerHex(s)
  {
    if s == [] then []
    else [(LowerHexValue(s[0]) * 16 + LowerHexValue(s[1])) as char] + Unhex(s[2..])
  }

  lemma {:induction false} UnhexHex(bs: Bytes)
    ensures Unhex(Hex(bs)) == bs
    decreases |bs|
  {
    if bs != [] {
      var h := Hex(bs);
      assert h[2..] == Hex(bs[1..]);
      UnhexHex(bs[1..]);
      assert bs == [bs[0]] + bs[1..];
    }
  }

  /** `OpenSSL::Digest.new("sha256").hexdigest(m)`. */
  function HexDigest(p: Primitives, m: Bytes): Bytes {
    Hex(p.sha256(m))
  }

  /** `OpenSSL::HMAC.hexdigest("sha256", key, m)`. */
  function HmacHexDigest(p: Primitives, key: Bytes, m: Bytes): Bytes {
    Hex(p.hmacSha256(key, m))
  }

  /** Both hex digests are 64 lower-case hex characters. */
  lemma HexDigestShapes(p: Primitives, key: Bytes, m: Bytes)
    requires p.Valid()
    ensures |HexDigest(p, m)| == 64 && AllLowerHex(HexDigest(p, m))
    ensures |HmacHexDigest(p, key, m)| == 64 && AllLowerHex(HmacHexDigest(p, key, m))
  {
  }
}
