/** KeyGenerator: the secret key of one exchange is 32 random bytes written as lowercase hex. */
module KeyGenerator {
  import opened JsNumbers

  type Byte = x: int | 0 <= x < 256

  predicate IsLowerHex(c: char) {
    '0' <= c <= '9' || 'a' <= c <= 'f'
  }

  function HexDigit(d: nat): (c: char)
    requires d < 16
    ensures IsLowerHex(c) && DigitValue(c) == d
  {
    if d < 10 then ('0' as int + d) as char else ('a' as int + d - 10) as char
  }

  /** Buffer.toString("hex"): two lowercase hex digits per byte, high nibble first. */
  function HexEncode(bytes: seq<Byte>): (s: string)
    ensures |s| == 2 * |bytes|
    ensures forall i :: 0 <= i < |s| ==> IsLowerHex(s[i])
  {
    if |bytes| == 0 then "" else [HexDigit(bytes[0] / 16), HexDigit(bytes[0] % 16)] + HexEncode(bytes[1..])
  }

  /** Reads pairs of hex digits back into bytes; the inverse partner of HexEncode. */
  function HexDecode(s: string): seq<Byte>
    decreases |s|
  {
    if |s| < 2 then []
    else
      var hi, lo := DigitValue(s[0]), DigitValue(s[1]);
      [if hi < 16 && lo < 16 then hi * 16 + lo else 0] + HexDecode(s[2..])
  }

  /** Hex encoding loses nothing: decoding gives back the bytes. */
  lemma {:induction false} HexRoundTrip(bytes: seq<Byte>)
    ensures HexDecode(HexEncode(bytes)) == bytes
  {
    if |bytes| > 0 {
      HexRoundTrip(bytes[1..]);
      var s := HexEncode(bytes);
      assert s[2..] == HexEncode(bytes[1..]);
      assert bytes == [bytes[0]] + bytes[1..];
    }
  }

  /** KeyGenerator.generateKey, given the 32 bytes drawn from the system's secure random source. */
  function GenerateKey(randomBytes: seq<Byte>): (key: string)
    requires |randomBytes| == 32
    ensures |key| == 64
    ensures forall i :: 0 <= i < |key| ==> IsLowerHex(key[i])
    ensures HexDecode(key) == randomBytes
  {
    HexRoundTrip(randomBytes);
    HexEncode(randomBytes)
  }
}
