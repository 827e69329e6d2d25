/**
 `libp2p::multi::converters::IPv4Converter`: the text of the `ip4` part of a
 multiaddress to its four address bytes, and the deprecated hex view of them.

 The text accepted is dotted decimal: four fields separated by '.', each field a
 decimal number 0..255 written without leading zeros. The bytes are the 32-bit
 internet address of section 3.1 of RFC 791, most significant octet first.
 */
module IPv4Converter {
  import opened Common

  /** The error code of a conversion that cannot read its input. */
  datatype ConversionError = InvalidFormat

  /** `outcome::result<T>`: a value or an error code. */
  datatype Result<+T> = Success(value: T) | Failure(error: ConversionError)

  const Separator: char := '.'

  /** Number of bytes in an IPv4 address. */
  const AddressLength: nat := 4

  // Decimal fields

  predicate IsDigit(c: char) {
    '0' <= c <= '9'
  }

  predicate AllDigits(s: string) {
    forall i :: 0 <= i < |s| ==> IsDigit(s[i])
  }

  /** A decimal numeral in canonical form: digits only, not empty, no leading zero. */
  predicate IsCanonicalDecimal(s: string) {
    |s| > 0 && AllDigits(s) && (s[0] == '0' ==> |s| == 1)
  }

  /** The number a string of decimal digits denotes, most significant digit first. */
  function DecimalValue(s: string): nat
    requires AllDigits(s)
    decreases |s|
  {
    if s == [] then 0 else 10 * DecimalValue(s[..|s| - 1]) + (s[|s| - 1] as int - '0' as int)
  }

  /** The canonical decimal numeral of `n`. */
  function DecimalText(n: nat): (s: string)
    ensures IsCanonicalDecimal(s) && DecimalValue(s) == n
    decreases n
  {
    var digit := ('0' as int + n % 10) as char;
    if n < 10 then [digit]
    else
      var s := DecimalText(n / 10) + [digit];
      assert s[..|s| - 1] == DecimalText(n / 10);
      s
  }

  lemma {:induction false} LeadingDigitNonZero(s: string)
    requires |s| > 0 && AllDigits(s) && s[0] != '0'
    ensures DecimalValue(s) > 0
    decreases |s|
  {
    if |s| > 1 {
      LeadingDigitNonZero(s[..|s| - 1]);
    }
  }

  /** A canonical numeral is the decimal text of its own value. */
  lemma {:induction false} CanonicalDecimalUnique(s: string)
    requires IsCanonicalDecimal(s)
    ensures DecimalText(DecimalValue(s)) == s
    decreases |s|
  {
    if |s| > 1 {
      var prefix := s[..|s| - 1];
      LeadingDigitNonZero(prefix);
      CanonicalDecimalUnique(prefix);
      assert s == prefix + [s[|s| - 1]];
    }
  }

  /** Reads one field as an octet: a canonical numeral no greater than 255. */
  function ParseOctet(field: string): (r: Option<byte>)
    ensures r.Some? ==> DecimalText(r.value) == field
  {
    if IsCanonicalDecimal(field) && DecimalValue(field) <= 255 then
      CanonicalDecimalUnique(field);
      Some(DecimalValue(field))
    else None
  }

  /** A field is read as octet `x` exactly when it is the decimal text of `x`. */
  lemma OctetTextInverse(field: string, x: byte)
    ensures ParseOctet(field) == Some(x) <==> field == DecimalText(x)
  {
  }

  /**
   Reads every field as an octet, all or nothing: one malformed field rejects the
   whole list, and no partial list of bytes is produced.
   */
  function ParseOctets(fields: seq<string>): (r: Option<Bytes>)
    ensures r.Some? ==> |r.value| == |fields| && forall i :: 0 <= i < |fields| ==> DecimalText(r.value[i]) == fields[i]
    ensures r.None? ==> exists i :: 0 <= i < |fields| && ParseOctet(fields[i]).None?
  {
    if fields == [] then Some([])
    else
      match (ParseOctet(fields[0]), ParseOctets(fields[1..]))
      case (Some(x), Some(rest)) => Some([x] + rest)
      case (None, _) => None
      case (_, None) =>
        assert forall i :: 0 <= i < |fields| - 1 ==> fields[1..][i] == fields[i + 1];
        None
  }

  /**
   A list of fields is read as `octets` exactly when the fields are, one for one,
   the decimal texts of the octets.
   */
  lemma {:induction false} ParseOctetsInverse(fields: seq<string>, octets: Bytes)
    ensures ParseOctets(fields) == Some(octets) <==>
              |fields| == |octets| && forall i :: 0 <= i < |fields| ==> fields[i] == DecimalText(octets[i])
  {
    if fields != [] && |fields| == |octets| && forall i :: 0 <= i < |fields| ==> fields[i] == DecimalText(octets[i]) {
      ParseOctetsInverse(fields[1..], octets[1..]);
      OctetTextInverse(fields[0], octets[0]);
      assert octets == [octets[0]] + octets[1..];
    }
  }

  // Splitting and joining on the separator

  /** The pieces of `s` between occurrences of `sep`; n separators give n + 1 pieces. */
  function Split(s: string, sep: char): (r: seq<string>)
    ensures |r| > 0
  {
    if s == [] then [[]]
    else
      var rest := Split(s[1..], sep);
      if s[0] == sep then [[]] + rest else [[s[0]] + rest[0]] + rest[1..]
  }

  /** The pieces put back together with `sep` between neighbours. */
  function Join(pieces: seq<string>, sep: char): string
    requires |pieces| > 0
  {
    if |pieces| == 1 then pieces[0] else pieces[0] + [sep] + Join(pieces[1..], sep)
  }

  /** Joining the pieces of a split gives back the original text. */
  lemma {:induction false} JoinSplit(s: string, sep: char)
    ensures Join(Split(s, sep), sep) == s
  {
    if s != [] {
      var rest := Split(s[1..], sep);
      JoinSplit(s[1..], sep);
      if s[0] == sep {
        assert Join([[]] + rest, sep) == [sep] + Join(rest, sep);
      } else if |rest| == 1 {
        assert s == [s[0]] + rest[0];
      } else {
        assert rest == [rest[0]] + rest[1..];
        assert Join(rest, sep) == rest[0] + [sep] + Join(rest[1..], sep);
        assert s == [s[0]] + s[1..];
      }
    }
  }

  /** A separator-free prefix extends the first piece of a split. */
  lemma {:induction false} SplitFreePrefix(w: string, t: string, sep: char)
    requires sep !in w
    ensures Split(w + t, sep) == [w + Split(t, sep)[0]] + Split(t, sep)[1..]
  {
    if w == [] {
      assert w + t == t;
      assert w + Split(t, sep)[0] == Split(t, sep)[0];
      assert Split(t, sep) == [Split(t, sep)[0]] + Split(t, sep)[1..];
    } else {
      var tail := Split(t, sep);
      SplitFreePrefix(w[1..], t, sep);
      assert (w + t)[0] == w[0] != sep;
      assert (w + t)[1..] == w[1..] + t;
      assert [w[0]] + (w[1..] + tail[0]) == w + tail[0];
    }
  }

  /** A separator-free piece followed by a separator splits off as one piece. */
  lemma SplitPiece(w: string, t: string, sep: char)
    requires sep !in w
    ensures Split(w + [sep] + t, sep) == [w] + Split(t, sep)
  {
    SplitFreePrefix(w, [sep] + t, sep);
    assert w + [sep] + t == w + ([sep] + t);
    assert ([sep] + t)[1..] == t;
    assert Split([sep] + t, sep) == [[]] + Split(t, sep);
    assert w + [] == w;
  }

  /** A separator-free text is a single piece. */
  lemma SplitWhole(w: string, sep: char)
    requires sep !in w
    ensures Split(w, sep) == [w]
  {
    SplitFreePrefix(w, [], sep);
    assert w + [] == w;
  }

  // The address

  /** The dotted-decimal text of four address bytes, first byte first. */
  function DottedQuad(b: Bytes): string
    requires |b| == AddressLength
  {
    DecimalText(b[0]) + [Separator] + DecimalText(b[1]) + [Separator] + DecimalText(b[2]) + [Separator] + DecimalText(b[3])
  }

  lemma NoSeparatorInDecimal(n: nat)
    ensures Separator !in DecimalText(n)
  {
  }

  /** The fields of a dotted quad are the decimal texts of its four bytes. */
  lemma SplitDottedQuad(b: Bytes)
    requires |b| == AddressLength
    ensures Split(DottedQuad(b), Separator) == [DecimalText(b[0]), DecimalText(b[1]), DecimalText(b[2]), DecimalText(b[3])]
  {
    var d0, d1, d2, d3 := DecimalText(b[0]), DecimalText(b[1]), DecimalText(b[2]), DecimalText(b[3]);
    NoSeparatorInDecimal(b[0]);
    NoSeparatorInDecimal(b[1]);
    NoSeparatorInDecimal(b[2]);
    NoSeparatorInDecimal(b[3]);
    var t2 := d2 + [Separator] + d3;
    var t1 := d1 + [Separator] + t2;
    assert DottedQuad(b) == d0 + [Separator] + t1;
    SplitWhole(d3, Separator);
    SplitPiece(d2, d3, Separator);
    SplitPiece(d1, t2, Separator);
    SplitPiece(d0, t1, Separator);
  }

  /** Text whose four fields are the decimal texts of four octets is their dotted quad. */
  lemma JoinedQuad(addr: string, octets: Bytes)
    requires |Split(addr, Separator)| == AddressLength && |octets| == AddressLength
    requires forall i :: 0 <= i < AddressLength ==> Split(addr, Separator)[i] == DecimalText(octets[i])
    ensures addr == DottedQuad(octets)
  {
    var fields := Split(addr, Separator);
    JoinSplit(addr, Separator);
    assert Join(fields, Separator) == fields[0] + [Separator] + Join(fields[1..], Separator);
    assert Join(fields[1..], Separator) == fields[1] + [Separator] + Join(fields[2..], Separator);
    assert Join(fields[2..], Separator) == fields[2] + [Separator] + fields[3];
  }

  /**
   `addressToBytes`: the four bytes of a dotted-decimal IPv4 address, in network
   order, or `InvalidFormat`. On success the text is exactly the dotted-decimal
   form of the bytes, so byte 0 comes from the first field.
   */
  function AddressToBytes(addr: string): (r: Result<Bytes>)
    ensures r.Success? ==> |r.value| == AddressLength && addr == DottedQuad(r.value)
  {
    var fields := Split(addr, Separator);
    if |fields| != AddressLength then Failure(InvalidFormat)
    else
      match ParseOctets(fields)
      case None => Failure(InvalidFormat)
      case Some(octets) =>
        JoinedQuad(addr, octets);
        Success(octets)
  }

  /**
   The conversion is exact in both directions: `addr` converts to `b` if and only
   if `b` is four bytes and `addr` is their dotted-decimal text.
   */
  lemma AddressToBytesExact(addr: string, b: Bytes)
    ensures AddressToBytes(addr) == Success(b) <==> |b| == AddressLength && addr == DottedQuad(b)
  {
    if |b| == AddressLength && addr == DottedQuad(b) {
      SplitDottedQuad(b);
      ParseOctetsInverse(Split(addr, Separator), b);
    }
  }

  /** The four bytes of every address are read back from its dotted-decimal text. */
  lemma AddressRoundTrip(b: Bytes)
    requires |b| == AddressLength
    ensures AddressToBytes(DottedQuad(b)) == Success(b)
  {
    AddressToBytesExact(DottedQuad(b), b);
  }

  /** Text that is the dotted-decimal form of some four bytes. */
  ghost predicate IsDottedQuad(addr: string) {
    exists b: Bytes :: |b| == AddressLength && addr == DottedQuad(b)
  }

  /** Malformed text, and only malformed text, is reported as an error. */
  lemma AddressToBytesFails(addr: string)
    ensures AddressToBytes(addr).Failure? <==> !IsDottedQuad(addr)
  {
    if IsDottedQuad(addr) {
      var b: Bytes :| |b| == AddressLength && addr == DottedQuad(b);
      AddressToBytesExact(addr, b);
    }
  }

  /** The 32-bit address of section 3.1 of RFC 791 that four bytes in network order stand for. */
  function AddressValue(b: Bytes): nat
    requires |b| == AddressLength
  {
    ((b[0] as int * 256 + b[1]) * 256 + b[2]) * 256 + b[3]
  }

  /** The four bytes of a 32-bit address, most significant octet first. */
  function NetworkOrder(v: nat): (b: Bytes)
    requires v < 0x1_0000_0000
    ensures |b| == AddressLength
  {
    [v / 0x100_0000, v / 0x1_0000 % 256, v / 256 % 256, v % 256]
  }

  /** Network order is a bijection between 32-bit addresses and four bytes. */
  lemma NetworkOrderInverse(b: Bytes, v: nat)
    requires |b| == AddressLength && v < 0x1_0000_0000
    ensures AddressValue(b) < 0x1_0000_0000
    ensures NetworkOrder(v) == b <==> AddressValue(b) == v
  {
  }

  /**
   The bytes an address converts to are the 32-bit address in network order: the
   first dotted field is its most significant octet.
   */
  lemma AddressToBytesNetworkOrder(addr: string, b: Bytes)
    requires AddressToBytes(addr) == Success(b)
    ensures AddressValue(b) < 0x1_0000_0000
    ensures NetworkOrder(AddressValue(b)) == b
    ensures b[0] == AddressValue(b) / 0x100_0000
  {
    NetworkOrderInverse(b, AddressValue(b));
  }

  /** Every 32-bit address is read back from the dotted-decimal text of its network-order bytes. */
  lemma AddressOfValue(v: nat)
    requires v < 0x1_0000_0000
    ensures AddressToBytes(DottedQuad(NetworkOrder(v))) == Success(NetworkOrder(v))
    ensures AddressValue(NetworkOrder(v)) == v
  {
    AddressRoundTrip(NetworkOrder(v));
    NetworkOrderInverse(NetworkOrder(v), v);
  }

  /**
   `addressToHex` (deprecated): `hex_lower(addressToBytes(addr))`. It succeeds
   exactly when `AddressToBytes` does, with the same error otherwise, and its text
   is eight lowercase hex digits that decode to the address bytes.
   */
  function AddressToHex(addr: string): (r: Result<string>)
    ensures r.Success? <==> AddressToBytes(addr).Success?
    ensures r.Failure? ==> r.error == AddressToBytes(addr).error
    ensures r.Success? ==> |r.value| == 2 * AddressLength
    ensures r.Success? ==> forall i :: 0 <= i < |r.value| ==> IsLowerHexDigit(r.value[i])
    ensures r.Success? ==> UnhexLower(r.value) == Some(AddressToBytes(addr).value)
  {
    match AddressToBytes(addr)
    case Failure(e) => Failure(e)
    case Success(bytes) =>
      HexLowerRoundTrip(bytes);
      Success(HexLower(bytes))
  }

  /** The hex view of an address is the hex text of its four bytes. */
  lemma AddressToHexOfDottedQuad(b: Bytes)
    requires |b| == AddressLength
    ensures AddressToHex(DottedQuad(b)) == Success(HexLower(b))
  {
    AddressRoundTrip(b);
  }

  /** The loopback address reads as the bytes 127, 0, 0, 1. */
  lemma LoopbackBytes()
    ensures AddressToBytes("127.0.0.1") == Success([127, 0, 0, 1])
  {
    assert DottedQuad([127, 0, 0, 1]) == "127.0.0.1" by {
      assert DecimalText(127) == "127";
      assert DecimalText(0) == "0" && DecimalText(1) == "1";
    }
    AddressRoundTrip([127, 0, 0, 1]);
  }

  /** The hex view of the loopback address. */
  lemma LoopbackHex()
    ensures AddressToHex("127.0.0.1") == Success("7f000001")
  {
    LoopbackBytes();
    HexLowerExample();
  }

  /** Three fields are not an address. */
  lemma RejectsThreeFields()
    ensures AddressToBytes("1.2.3") == Failure(InvalidFormat)
  {
    assert "1.2.3" == "1" + [Separator] + ("2" + [Separator] + "3");
    SplitWhole("3", Separator);
    SplitPiece("2", "3", Separator);
    SplitPiece("1", "2.3", Separator);
  }

  /** A field that is a number above 255 is not an octet, so the whole address is rejected. */
  lemma RejectsFieldAbove255(addr: string, i: nat, x: nat)
    requires i < |Split(addr, Separator)| && Split(addr, Separator)[i] == DecimalText(x)
    requires x > 255
    ensures AddressToBytes(addr) == Failure(InvalidFormat)
  {
    if AddressToBytes(addr).Success? {
      var b := AddressToBytes(addr).value;
      SplitDottedQuad(b);
      assert false;
    }
  }
}
