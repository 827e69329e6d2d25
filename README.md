# cpp-libp2p: bounded-view narrowing and the IPv4 converter, in Dafny

This project models two small pieces of the multiaddress side of cpp-libp2p and
proves their contracts.

- `libp2p::ambigousSize(std::span<T>&, size_t n)` (module `AmbigousSize`,
  `ambigous_size.dfy`). The span is a class `Span<T>` over a backing array, with a
  `start` and a `size`. The method `AmbigousSize` narrows the span in place. When
  `n` exceeds the span's size, the `std::logic_error` is an explicit `Throw`
  outcome and the span is left as it was. Otherwise the span is narrowed to its
  first `n` elements and the backing array is untouched. The function `Narrow`
  says the same thing on the elements the span shows. The method is tied to it,
  and the lemmas about prefixes, idempotence and never growing are proved about
  `Narrow`.
- `libp2p::multi::converters::IPv4Converter` (module `IPv4Converter`,
  `ip_v4_converter.dfy`). `AddressToBytes` reads dotted-decimal text into the four
  bytes of an IPv4 address. The text is four fields 0..255 separated by `.`, and
  the bytes are in network order, the 32-bit address of section 3.1 of RFC 791.
  Any other text gives `Failure(InvalidFormat)`. The deprecated `AddressToHex` is
  defined on top of it as `hex_lower(addressToBytes(addr))`, as its deprecation
  note says.
- `hex_lower` and byte buffers (module `Common`, `common.dfy`). These live in a
  common file of the library that is not part of this model. `HexLower` is written
  from its name and the usual convention (two lowercase hex digits per byte, high
  nibble first), with its inverse `UnhexLower`.

The header only declares the converter, so the parser is specified, not
transcribed. It accepts exactly the canonical dotted-decimal form. The central
fact is `AddressToBytesExact`: `addr` converts to `b` if and only if `b` is four
bytes and `addr` is `DottedQuad(b)`, the canonical text of `b`. Both conversions
are Dafny functions, so the same input always gives the same output.

## Model

| member | source | states |
|---|---|---|
| `AmbigousSize.Narrow` | include/libp2p/common/ambigous_size.hpp:13-19 | fails with the logic error `"libp2p::ambigousSize"` exactly when `n` exceeds the view; on success the result has length `n` and element `i` equals element `i` of the old view for every `i < n` |
| `AmbigousSize.AmbigousSize` | include/libp2p/common/ambigous_size.hpp:13-19 | throws exactly when `n > s.size()`, leaving the span unchanged; otherwise the size becomes `n` and the start stays; the backing array's contents never change; the elements shown afterwards are `Narrow` of the old ones |
| `AmbigousSize.NarrowNeverGrows` | include/libp2p/common/ambigous_size.hpp:15-18 | the length after the call is never more than before: `n` on success, the old length on failure |
| `AmbigousSize.NarrowToLengthIsIdentity` | include/libp2p/common/ambigous_size.hpp:18 | narrowing to the current length gives the same view |
| `AmbigousSize.NarrowIdempotent` | include/libp2p/common/ambigous_size.hpp:18 | narrowing twice with the same `n` equals narrowing once |
| `AmbigousSize.NarrowCompose` | include/libp2p/common/ambigous_size.hpp:18 | narrowing to `m` and then to `n <= m` equals narrowing to `n` directly |
| `AmbigousSize.NarrowTwice` | include/libp2p/common/ambigous_size.hpp:15-18 | two calls with the same `n` on one span: the first succeeds iff `n` fits; the second ends exactly as the first (both pass or both throw), and the span shows the first `n` old elements on success and the old elements on failure |
| `Common.HexLower` | include/libp2p/multi/converters/ip_v4_converter.hpp:20 | the hex text of `b` has exactly two characters per byte, each in `0-9a-f` |
| `Common.HexLowerAt` | include/libp2p/multi/converters/ip_v4_converter.hpp:20 | characters `2k` and `2k+1` are the high and low nibble of byte `k` |
| `Common.HexLowerInverse` | include/libp2p/multi/converters/ip_v4_converter.hpp:20 | `UnhexLower(h) == Some(b)` if and only if `HexLower(b) == h`: the hex text determines the bytes, and each buffer has exactly one hex text |
| `Common.HexLowerRoundTrip` | include/libp2p/multi/converters/ip_v4_converter.hpp:20 | decoding the hex text of a buffer gives the buffer back |
| `Common.HexLowerExample` | include/libp2p/multi/converters/ip_v4_converter.hpp:20 | the bytes 127, 0, 0, 1 have the hex text `7f000001` |
| `IPv4Converter.DecimalText` | include/libp2p/multi/converters/ip_v4_converter.hpp:24 | the decimal text of `n` is a canonical numeral whose value is `n` |
| `IPv4Converter.CanonicalDecimalUnique` | include/libp2p/multi/converters/ip_v4_converter.hpp:24 | a canonical numeral is the decimal text of its own value, so each value has one canonical numeral |
| `IPv4Converter.ParseOctet` | include/libp2p/multi/converters/ip_v4_converter.hpp:24 | a field that reads as octet `x` is the decimal text of `x` |
| `IPv4Converter.OctetTextInverse` | include/libp2p/multi/converters/ip_v4_converter.hpp:24 | a field reads as octet `x` if and only if it is the decimal text of `x` |
| `IPv4Converter.ParseOctets` | include/libp2p/multi/converters/ip_v4_converter.hpp:24 | on success there is one octet per field, each field being the octet's decimal text; a failure is always caused by some field that is not an octet, and no partial result is returned |
| `IPv4Converter.ParseOctetsInverse` | include/libp2p/multi/converters/ip_v4_converter.hpp:24 | a list of fields reads as `octets` if and only if the fields are, one for one, the decimal texts of the octets |
| `IPv4Converter.JoinSplit` | include/libp2p/multi/converters/ip_v4_converter.hpp:24 | joining the `.`-separated fields of a text with `.` gives the text back |
| `IPv4Converter.SplitDottedQuad` | include/libp2p/multi/converters/ip_v4_converter.hpp:24 | the fields of a dotted quad are the decimal texts of its four bytes, in order |
| `IPv4Converter.AddressToBytes` | include/libp2p/multi/converters/ip_v4_converter.hpp:24 | a successful conversion yields exactly four bytes, and the text is their dotted-decimal form, so byte 0 comes from the first field (network order) |
| `IPv4Converter.AddressToBytesExact` | include/libp2p/multi/converters/ip_v4_converter.hpp:24 | `addr` converts to `b` if and only if `b` has four bytes and `addr` is `DottedQuad(b)` |
| `IPv4Converter.AddressRoundTrip` | include/libp2p/multi/converters/ip_v4_converter.hpp:24 | the dotted-decimal text of any four bytes converts back to those bytes |
| `IPv4Converter.AddressToBytesFails` | include/libp2p/multi/converters/ip_v4_converter.hpp:21-24 | the conversion fails exactly on text that is not the dotted-decimal form of some four bytes |
| `IPv4Converter.NetworkOrder` | include/libp2p/multi/converters/ip_v4_converter.hpp:15-16 | a 32-bit address splits into four bytes |
| `IPv4Converter.NetworkOrderInverse` | include/libp2p/multi/converters/ip_v4_converter.hpp:15-16 | four bytes stand for a value below 2^32, and `NetworkOrder(v) == b` if and only if `b` read most significant octet first is `v` (section 3.1 of RFC 791) |
| `IPv4Converter.AddressToBytesNetworkOrder` | include/libp2p/multi/converters/ip_v4_converter.hpp:14-24 | the bytes a successful conversion yields are the network-order bytes of a 32-bit address, whose most significant octet is the first dotted field |
| `IPv4Converter.AddressOfValue` | include/libp2p/multi/converters/ip_v4_converter.hpp:14-24 | every 32-bit address is read back from the dotted-decimal text of its network-order bytes |
| `IPv4Converter.AddressToHex` | include/libp2p/multi/converters/ip_v4_converter.hpp:20-22 | succeeds exactly when `AddressToBytes` does, with the same error otherwise; on success the text has eight characters in `0-9a-f` and decodes back to the address bytes |
| `IPv4Converter.AddressToHexOfDottedQuad` | include/libp2p/multi/converters/ip_v4_converter.hpp:20-22 | the hex view of the dotted-decimal text of `b` is `hex_lower(b)` |
| `IPv4Converter.LoopbackBytes` | include/libp2p/multi/converters/ip_v4_converter.hpp:24 | `"127.0.0.1"` converts to the bytes 127, 0, 0, 1 |
| `IPv4Converter.LoopbackHex` | include/libp2p/multi/converters/ip_v4_converter.hpp:20-22 | the hex view of `"127.0.0.1"` is `"7f000001"` |
| `IPv4Converter.RejectsThreeFields` | include/libp2p/multi/converters/ip_v4_converter.hpp:24 | `"1.2.3"` is rejected with `InvalidFormat` |
| `IPv4Converter.RejectsFieldAbove255` | include/libp2p/multi/converters/ip_v4_converter.hpp:24 | any text with a field that is a number above 255 is rejected with `InvalidFormat` |

## Left out

- The implementation of `IPv4Converter` is not part of this model; only its header is. The parser here is a specification of dotted decimal. Leading zeros (`01.2.3.4`), shorthand forms (`127.1`) and surrounding whitespace are failures in the model. The real implementation's behaviour on them is not claimed.
- No `bytes_to_text` inverse is modelled, because the header declares none. `DottedQuad` is the reference definition of the canonical text.
- `hex_lower` lives in a common file that is not part of this model; its only mention is its name in the deprecation note. `Common.HexLower` assumes lowercase digits with the high nibble first, the usual convention for that name.
- `std::logic_error` and `outcome::result` error codes are plain datatypes (`Outcome`, `Result`). Exception propagation is not modelled. The error code of a failed conversion is the single value `InvalidFormat`.
- The template parameter `T` stays generic. The `size_t` argument is an unbounded `nat`, which covers every value a `size_t` can hold.
- `std::span` is modelled as a backing array with a start and a size. Pointers and aliasing between several spans over one buffer are not modelled beyond the array being shared and left unmodified.
- The statelessness of the two static conversions has no separate lemma. Dafny functions give the same output for the same input by construction.
- The RSA provider test and the key and signature provider it exercises are not modelled. They rely on an OpenSSL-backed implementation, big-number arithmetic and DER parsing that are not part of this model.
- The multiaddress wire codec and the protocol registry are not part of this model.
