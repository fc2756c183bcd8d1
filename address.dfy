/**
 * `format_mac` and `format_ip`: render a packed hardware or IPv4 address as
 * text, and pass any address that is already text through unchanged.
 * Each rendering is paired with a parser and a round-trip lemma.
 */
module AddressFormat {
  import opened Wrappers
  import opened PyText

  type Byte = x: int | 0 <= x < 256

  /** The argument of `format_mac` / `format_ip`: a `bytes` object or a string. */
  datatype RawAddress = Packed(bytes: seq<Byte>) | Text(text: string)

  /** `socket.inet_ntoa` rejects a packed address that is not four bytes long. */
  datatype AddressError = PackedLengthNotFour(length: nat)

  predicate IsHexDigit(c: char) { IsDigit(c) || 'a' <= c <= 'f' }

  function HexDigit(d: int): (c: char)
    requires 0 <= d < 16
    ensures IsHexDigit(c)
  {
    if d < 10 then DigitChar(d) else ('a' as int + d - 10) as char
  }

  function HexDigitValue(c: char): (d: int)
    requires IsHexDigit(c)
    ensures 0 <= d < 16
  {
    if IsDigit(c) then c as int - '0' as int else c as int - 'a' as int + 10
  }

  /** `f'{b:02x}'`: two lower-case hexadecimal digits. */
  function HexPair(b: Byte): string {
    [HexDigit(b / 16), HexDigit(b % 16)]
  }

  predicate IsHexPair(s: string) {
    |s| == 2 && IsHexDigit(s[0]) && IsHexDigit(s[1])
  }

  function HexPairValue(s: string): Byte
    requires IsHexPair(s)
  {
    16 * HexDigitValue(s[0]) + HexDigitValue(s[1])
  }

  function HexPairs(bs: seq<Byte>): (r: seq<string>)
    ensures |r| == |bs|
    ensures forall i :: 0 <= i < |bs| ==> r[i] == HexPair(bs[i])
  {
    seq(|bs|, i requires 0 <= i < |bs| => HexPair(bs[i]))
  }

  /** `format_mac`: the bytes as colon-separated hexadecimal pairs; text as it is. */
  function FormatMac(raw: RawAddress): (r: string)
    ensures raw.Text? ==> r == raw.text
    ensures raw.Packed? && raw.bytes != [] ==>
              Split(r, ":") == HexPairs(raw.bytes) && |r| == 3 * |raw.bytes| - 1 && NoUpper(r)
    ensures raw.Packed? && raw.bytes == [] ==> r == []
  {
    match raw
    case Packed(bs) =>
      if bs != [] then PairsSplit(bs); JoinPairsShape(HexPairs(bs)); Join(HexPairs(bs), ":")
      else Join(HexPairs(bs), ":")
    case Text(t) => t
  }

  /** The colon-joined pairs of some bytes split back into those pairs. */
  lemma PairsSplit(bs: seq<Byte>)
    requires |bs| >= 1
    ensures Split(Join(HexPairs(bs), ":"), ":") == HexPairs(bs)
  {
    var pairs := HexPairs(bs);
    forall p | p in pairs ensures ':' !in p {
      var i :| 0 <= i < |pairs| && pairs[i] == p;
      HexPairRoundTrip(bs[i]);
    }
    SplitJoin(pairs, ':');
  }

  /** Reads a colon-separated run of hexadecimal pairs back into bytes. */
  function ParseMac(s: string): Option<seq<Byte>> {
    var parts := Split(s, ":");
    if forall i :: 0 <= i < |parts| ==> IsHexPair(parts[i])
    then Some(seq(|parts|, i requires 0 <= i < |parts| => HexPairValue(parts[i])))
    else None
  }

  lemma HexPairRoundTrip(b: Byte)
    ensures IsHexPair(HexPair(b)) && HexPairValue(HexPair(b)) == b
  {
  }

  /** Formatting non-empty packed bytes and parsing the text gives the bytes back. */
  lemma MacRoundTrip(bs: seq<Byte>)
    requires |bs| >= 1
    ensures ParseMac(FormatMac(Packed(bs))) == Some(bs)
  {
    var pairs := HexPairs(bs);
    assert Split(FormatMac(Packed(bs)), ":") == pairs;
    forall i | 0 <= i < |pairs| ensures IsHexPair(pairs[i]) && HexPairValue(pairs[i]) == bs[i] {
      HexPairRoundTrip(bs[i]);
    }
    assert seq(|pairs|, i requires 0 <= i < |pairs| => HexPairValue(pairs[i])) == bs;
  }

  lemma {:induction false} JoinPairsShape(pairs: seq<string>)
    requires |pairs| >= 1
    requires forall i :: 0 <= i < |pairs| ==> IsHexPair(pairs[i])
    ensures |Join(pairs, ":")| == 3 * |pairs| - 1
    ensures NoUpper(Join(pairs, ":"))
  {
    if |pairs| > 1 {
      JoinPairsShape(pairs[1..]);
      var s := Join(pairs, ":");
      var tail := Join(pairs[1..], ":");
      assert s == pairs[0] + ":" + tail;
      forall i | 0 <= i < |s| ensures !IsUpper(s[i]) {
        if i < 2 {
          assert s[i] == pairs[0][i];
        } else if i > 2 {
          assert s[i] == tail[i - 3];
        }
      }
    }
  }

  function DottedQuadParts(bs: seq<Byte>): (r: seq<string>)
    ensures |r| == |bs|
    ensures forall i :: 0 <= i < |bs| ==> r[i] == Decimal(bs[i])
  {
    seq(|bs|, i requires 0 <= i < |bs| => Decimal(bs[i]))
  }

  /** `format_ip`: four packed bytes in dotted-decimal form; any other length is
      the error `inet_ntoa` raises; text as it is. */
  function FormatIp(raw: RawAddress): (r: Result<string, AddressError>)
    ensures raw.Text? ==> r == Ok(raw.text)
    ensures raw.Packed? ==> (r.Ok? <==> |raw.bytes| == 4)
    ensures raw.Packed? && |raw.bytes| != 4 ==> r == Err(PackedLengthNotFour(|raw.bytes|))
    ensures raw.Packed? && |raw.bytes| == 4 ==> Split(r.value, ".") == DottedQuadParts(raw.bytes)
  {
    match raw
    case Packed(bs) =>
      if |bs| == 4 then OctetsSplit(bs); Ok(Join(DottedQuadParts(bs), ".")) else Err(PackedLengthNotFour(|bs|))
    case Text(t) => Ok(t)
  }

  /** The dot-joined decimal octets split back into those octets. */
  lemma OctetsSplit(bs: seq<Byte>)
    requires |bs| >= 1
    ensures Split(Join(DottedQuadParts(bs), "."), ".") == DottedQuadParts(bs)
  {
    var parts := DottedQuadParts(bs);
    forall p | p in parts ensures '.' !in p {
      var i :| 0 <= i < |parts| && parts[i] == p;
      assert forall k :: 0 <= k < |p| ==> IsDigit(p[k]);
    }
    SplitJoin(parts, '.');
  }

  predicate IsOctetText(s: string) {
    s != [] && (forall i :: 0 <= i < |s| ==> IsDigit(s[i])) && DecimalValue(s) < 256
  }

  /** Reads dotted-decimal text back into four bytes. */
  function ParseIp(s: string): Option<seq<Byte>> {
    var parts := Split(s, ".");
    if |parts| == 4 && forall i :: 0 <= i < 4 ==> IsOctetText(parts[i])
    then Some(seq(4, i requires 0 <= i < 4 => DecimalValue(parts[i]) as Byte))
    else None
  }

  /** A packed address of any other length than four is rejected. */
  lemma IpWrongLength(bs: seq<Byte>)
    requires |bs| != 4
    ensures FormatIp(Packed(bs)) == Err(PackedLengthNotFour(|bs|))
  {
  }

  /** Formatting four packed bytes and parsing the text gives the bytes back. */
  lemma IpRoundTrip(bs: seq<Byte>)
    requires |bs| == 4
    ensures FormatIp(Packed(bs)).Ok?
    ensures ParseIp(FormatIp(Packed(bs)).value) == Some(bs)
  {
    var parts := DottedQuadParts(bs);
    assert Split(FormatIp(Packed(bs)).value, ".") == parts;
    forall i | 0 <= i < 4 ensures IsOctetText(parts[i]) && DecimalValue(parts[i]) == bs[i] {
      DecimalRoundTrip(bs[i]);
    }
    assert seq(4, i requires 0 <= i < 4 => DecimalValue(parts[i]) as Byte) == bs;
  }
}
