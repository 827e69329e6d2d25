/**
 Byte buffers and their lowercase hexadecimal text, as used by the multiaddress
 converters (libp2p::common: `Bytes` and `hex_lower`).
 */
module Common {

  /** One octet. */
  type byte = x: int | 0 <= x < 256

  /** A byte buffer (`libp2p::Bytes`). */
  type Bytes = seq<byte>

  datatype Option<+T> = None | Some(value: T)

  /** The alphabet of `hex_lower`: decimal digits and the letters a to f. */
  predicate IsLowerHexDigit(c: char) {
    '0' <= c <= '9' || 'a' <= c <= 'f'
  }

  /** The nibble a lowercase hex digit stands for. */
  function HexValue(c: char): (v: nat)
    requires IsLowerHexDigit(c)
    ensures v < 16
  {
    if c <= '9' then c as int - '0' as int else c as int - 'a' as int + 10
  }

  /** The lowercase hex digit of a nibble. */
  function HexDigit(nibble: nat): (c: char)
    requires nibble < 16
    ensures IsLowerHexDigit(c) && HexValue(c) == nibble
  {
    if nibble < 10 then ('0' as int + nibble) as char else ('a' as int + nibble - 10) as char
  }

  /**
   `hex_lower`, taken from its name and the usual convention: two lowercase hex
   digits per byte, high nibble first.
   */
  function HexLower(bytes: Bytes): (h: string)
    ensures |h| == 2 * |bytes|
    ensures forall i :: 0 <= i < |h| ==> IsLowerHexDigit(h[i])
  {
    if bytes == [] then []
    else [HexDigit(bytes[0] / 16), HexDigit(bytes[0] % 16)] + HexLower(bytes[1..])
  }

  /**
   The inverse of `HexLower`: reads pairs of lowercase hex digits back into bytes;
   an odd length or a character outside 0-9a-f gives None.
   */
  function UnhexLower(h: string): (r: Option<Bytes>)
    decreases |h|
  {
    if h == [] then Some([])
    else if |h| == 1 || !IsLowerHexDigit(h[0]) || !IsLowerHexDigit(h[1]) then None
    else
      match UnhexLower(h[2..])
      case None => None
      case Some(rest) => Some([HexValue(h[0]) * 16 + HexValue(h[1])] + rest)
  }

  lemma HexDigitOfValue(c: char)
    requires IsLowerHexDigit(c)
    ensures HexDigit(HexValue(c)) == c
  {
  }

  /**
   `hex_lower` is a bijection between byte buffers and even-length strings of
   lowercase hex digits: a string decodes to `bytes` exactly when it is their hex text.
   */
  lemma {:induction false} HexLowerInverse(h: string, bytes: Bytes)
    ensures UnhexLower(h) == Some(bytes) <==> HexLower(bytes) == h
    decreases |h|
  {
    if h == [] || bytes == [] {
    } else if |h| == 1 || !IsLowerHexDigit(h[0]) || !IsLowerHexDigit(h[1]) {
      assert HexLower(bytes)[0] == HexDigit(bytes[0] / 16);
      assert HexLower(bytes)[1] == HexDigit(bytes[0] % 16);
    } else {
      HexLowerInverse(h[2..], bytes[1..]);
      HexDigitOfValue(h[0]);
      HexDigitOfValue(h[1]);
      var x := HexValue(h[0]) * 16 + HexValue(h[1]);
      assert x / 16 == HexValue(h[0]) && x % 16 == HexValue(h[1]);
      if HexLower(bytes) == h {
        assert HexLower(bytes[1..]) == h[2..];
        assert bytes[0] == x;
        assert bytes == [bytes[0]] + bytes[1..];
      }
    }
  }

  /** Decoding the hex text of a buffer gives the buffer back. */
  lemma HexLowerRoundTrip(bytes: Bytes)
    ensures UnhexLower(HexLower(bytes)) == Some(bytes)
  {
    HexLowerInverse(HexLower(bytes), bytes);
  }

  /** Position 2k of the hex text holds the high nibble of byte k, position 2k + 1 the low one. */
  lemma {:induction false} HexLowerAt(bytes: Bytes, k: nat)
    requires k < |bytes|
    ensures HexLower(bytes)[2 * k] == HexDigit(bytes[k] / 16)
    ensures HexLower(bytes)[2 * k + 1] == HexDigit(bytes[k] % 16)
  {
    if k > 0 {
      HexLowerAt(bytes[1..], k - 1);
    }
  }

  lemma HexLowerExample()
    ensures HexLower([127, 0, 0, 1]) == "7f000001"
  {
  }
}
