/** HMAClac: the keyed hash that binds the committed number. The HMAC-SHA3-256 function itself
    (section 2 of RFC 2104 over the SHA3-256 hash of FIPS 202) is a parameter of the model: any
    function from a key and a message to a 32-byte digest, so only its determinism is used. */
module HmacCalc {
  import opened KeyGenerator

  /** A SHA3-256 digest: 32 bytes. */
  type Digest = d: seq<Byte> | |d| == 32 witness seq(32, _ => 0)

  /** A keyed hash from a key text and a message text to a digest. */
  type Hmac = (string, string) -> Digest

  /** HMAClac.calculateHma: the digest of `message` under `key`, as 64 lowercase hex digits. */
  function CalculateHmac(hmac: Hmac, key: string, message: string): (hex: string)
    ensures |hex| == 64
    ensures forall i :: 0 <= i < |hex| ==> IsLowerHex(hex[i])
    ensures HexDecode(hex) == hmac(key, message)
  {
    HexRoundTrip(hmac(key, message));
    HexEncode(hmac(key, message))
  }
}
