/** IP addresses and the literal syntax of `str::parse` into `Ipv4Addr` and
    `IpAddr`, simplified: dotted quads for IPv4, the full eight-group form for
    IPv6. */
module Net {
  import opened Wrappers
  import opened Strings

  type Octet = n: nat | n < 0x100
  type Segment = n: nat | n < 0x1_0000

  datatype Ipv4Addr = Ipv4Addr(a: Octet, b: Octet, c: Octet, d: Octet)

  /** The eight 16-bit segments of an IPv6 address, most significant first. */
  type Segments = s: seq<Segment> | |s| == 8 witness [0, 0, 0, 0, 0, 0, 0, 0]

  datatype Ipv6Addr = Ipv6Addr(segments: Segments)

  datatype IpAddr = V4(v4: Ipv4Addr) | V6(v6: Ipv6Addr)

  // ---- decimal fields of a dotted quad ----

  predicate IsDigit(c: char) { '0' <= c <= '9' }

  predicate AllDigits(t: string) { forall i :: 0 <= i < |t| ==> IsDigit(t[i]) }

  /** The value of the decimal numeral `t`. */
  function DecimalValue(t: string): nat
    requires AllDigits(t)
  {
    if t == "" then 0 else 10 * DecimalValue(t[..|t| - 1]) + (t[|t| - 1] as int - '0' as int)
  }

  /** One field of a dotted quad: one to three decimal digits, no leading
      zero unless the field is just "0", and a value below 256. */
  function ParseOctet(t: string): Option<Octet>
  {
    if 1 <= |t| <= 3 && AllDigits(t) && (t[0] != '0' || |t| == 1) && DecimalValue(t) < 0x100
    then Some(DecimalValue(t))
    else None
  }

  /** `str::parse::<Ipv4Addr>`: exactly four dot-separated decimal fields. */
  function ParseIpv4(s: string): Option<Ipv4Addr>
  {
    var fields := Split(s, '.');
    if |fields| != 4 then None
    else
      match (ParseOctet(fields[0]), ParseOctet(fields[1]), ParseOctet(fields[2]), ParseOctet(fields[3]))
      case (Some(a), Some(b), Some(c), Some(d)) => Some(Ipv4Addr(a, b, c, d))
      case _ => None
  }

  function DigitChar(d: nat): char
    requires d < 10
  {
    ('0' as int + d) as char
  }

  /** The shortest decimal numeral of `n`. */
  function Decimal(n: nat): string
  {
    if n < 10 then [DigitChar(n)] else Decimal(n / 10) + [DigitChar(n % 10)]
  }

  /** `Decimal` writes a numeral that reads back as `n`, with no leading zero
      and with as many digits as `n` needs. */
  lemma {:induction false} DecimalReadsBack(n: nat)
    ensures AllDigits(Decimal(n)) && DecimalValue(Decimal(n)) == n
    ensures 1 <= |Decimal(n)|
    ensures n < 10 ==> |Decimal(n)| == 1
    ensures n < 100 ==> |Decimal(n)| <= 2
    ensures n < 1000 ==> |Decimal(n)| <= 3
    ensures Decimal(n)[0] == '0' <==> n == 0
  {
    if n >= 10 {
      DecimalReadsBack(n / 10);
      var t := Decimal(n);
      assert t[..|t| - 1] == Decimal(n / 10);
    }
  }

  /** The text of one octet parses back to the octet. */
  lemma OctetReadsBack(n: Octet)
    ensures '.' !in Decimal(n)
    ensures ParseOctet(Decimal(n)) == Some(n)
  {
    DecimalReadsBack(n);
  }

  /** The dotted-quad text of an address (`Ipv4Addr`'s `Display`). */
  function FormatIpv4(ip: Ipv4Addr): string
  {
    Join([Decimal(ip.a), Decimal(ip.b), Decimal(ip.c), Decimal(ip.d)], '.')
  }

  /** Writing an IPv4 address and parsing it back gives the address. */
  lemma ParseFormatIpv4(ip: Ipv4Addr)
    ensures ParseIpv4(FormatIpv4(ip)) == Some(ip)
  {
    var fields := [Decimal(ip.a), Decimal(ip.b), Decimal(ip.c), Decimal(ip.d)];
    OctetReadsBack(ip.a);
    OctetReadsBack(ip.b);
    OctetReadsBack(ip.c);
    OctetReadsBack(ip.d);
    SplitJoin(fields, '.');
  }

  // ---- hexadecimal groups of an IPv6 address ----

  predicate IsHexDigit(c: char) { '0' <= c <= '9' || 'a' <= c <= 'f' || 'A' <= c <= 'F' }

  predicate AllHexDigits(t: string) { forall i :: 0 <= i < |t| ==> IsHexDigit(t[i]) }

  function HexDigitValue(c: char): nat
    requires IsHexDigit(c)
  {
    if c <= '9' then c as int - '0' as int
    else if c <= 'F' then c as int - 'A' as int + 10
    else c as int - 'a' as int + 10
  }

  /** The value of the hexadecimal numeral `t`. */
  function HexValue(t: string): nat
    requires AllHexDigits(t)
  {
    if t == "" then 0 else 16 * HexValue(t[..|t| - 1]) + HexDigitValue(t[|t| - 1])
  }

  /** One group of an IPv6 address: one to four hexadecimal digits. */
  function ParseSegment(t: string): Option<Segment>
  {
    if 1 <= |t| <= 4 && AllHexDigits(t) && HexValue(t) < 0x1_0000 then Some(HexValue(t)) else None
  }

  /** Every group of `groups` parsed, or `None` if one of them does not. */
  function ParseSegments(groups: seq<string>): (r: Option<seq<Segment>>)
    ensures r.Some? ==> |r.value| == |groups|
  {
    if groups == [] then Some([])
    else
      match (ParseSegment(groups[0]), ParseSegments(groups[1..]))
      case (Some(w), Some(ws)) => Some([w] + ws)
      case _ => None
  }

  /** `str::parse::<Ipv6Addr>`, restricted to eight colon-separated groups. */
  function ParseIpv6(s: string): Option<Ipv6Addr>
  {
    var groups := Split(s, ':');
    if |groups| != 8 then None
    else
      match ParseSegments(groups)
      case Some(ws) => Some(Ipv6Addr(ws))
      case None => None
  }

  // ---- either family ----

  /** `str::parse::<IpAddr>`: text is read as IPv4 first and as IPv6 only if
      that fails. An address comes out as IPv4 exactly when the text is a
      dotted quad; text that is not one is the IPv6 address it spells, if
      any; the empty text is no address at all. */
  function ParseIpAddr(s: string): (r: Option<IpAddr>)
    ensures (r.Some? && r.value.V4?) <==> ParseIpv4(s).Some?
    ensures r.Some? && r.value.V4? ==> ParseIpv4(s) == Some(r.value.v4)
    ensures r.Some? && r.value.V6? ==> ParseIpv6(s) == Some(r.value.v6)
    ensures ParseIpv4(s).None? && ParseIpv6(s).Some? ==> r == Some(V6(ParseIpv6(s).value))
    ensures ParseIpv4(s).None? && ParseIpv6(s).None? ==> r == None
    ensures s == "" ==> r == None
  {
    match ParseIpv4(s)
    case Some(a) => Some(V4(a))
    case None =>
      match ParseIpv6(s)
      case Some(b) => Some(V6(b))
      case None => None
  }
}
