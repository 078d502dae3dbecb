/** `parse_cidr` (config/src/lib.rs): split the text once at the first `/`, parse the
    left part as an IPv4 address and the right part as a `u8` prefix length. Every
    `unwrap` and the out-of-range `segments[1]` index become `Failure` values. */
module Cidr {
  import opened Wrappers
  import opened Decimal
  import opened Net

  /** Why a CIDR text was rejected, in the order the checks happen. */
  datatype CidrError =
    | MissingPrefix     // no `/`: the split has one segment and `segments[1]` is out of range
    | BadAddress        // the text before the first `/` is not an IPv4 literal
    | BadPrefixLength   // the text after the first `/` is not a `u8`

  /** Index of the first occurrence of `sep` in `s`, if any. */
  function FirstIndex(s: string, sep: char): (r: Option<nat>)
    ensures r.None? <==> forall j | 0 <= j < |s| :: s[j] != sep
    ensures r.Some? ==> r.value < |s| && s[r.value] == sep
    ensures r.Some? ==> forall j | 0 <= j < r.value :: s[j] != sep
  {
    if s == [] then None
    else if s[0] == sep then Some(0)
    else
      match FirstIndex(s[1..], sep)
      case None => None
      case Some(i) => Some(i + 1)
  }

  /** `s.splitn(2, sep)`: the whole text when `sep` does not occur, otherwise the
      text before the first `sep` and everything after it (further separators
      included). */
  function SplitN2(s: string, sep: char): (r: seq<string>)
    ensures |r| == 1 || |r| == 2
    ensures |r| == 1 <==> sep !in s
    ensures |r| == 1 ==> r[0] == s
    ensures |r| == 2 ==> s == r[0] + [sep] + r[1] && sep !in r[0]
  {
    match FirstIndex(s, sep)
    case None => [s]
    case Some(i) =>
      assert s == s[..i] + [sep] + s[i + 1..];
      [s[..i], s[i + 1..]]
  }

  /** A text splits at a separator exactly where its first occurrence is: the
      decomposition `a + [sep] + b` with `sep` not in `a` is the split. */
  lemma {:induction false} SplitN2Unique(a: string, sep: char, b: string)
    requires sep !in a
    ensures SplitN2(a + [sep] + b, sep) == [a, b]
  {
    var s := a + [sep] + b;
    assert s[..|a|] == a && s[|a|] == sep && s[|a| + 1..] == b;
    var i := FirstIndex(s, sep).value;
    assert forall j | 0 <= j < i :: s[..i][j] != sep;
    assert forall j | 0 <= j < |a| :: s[j] == a[j];
    assert i == |a|;
  }

  /** `parse_cidr` with the IPv4 parser (`str::parse::<Ipv4Addr>`) as a parameter. */
  function ParseCidr(ipv4: string -> Option<Ipv4Addr>, s: string): (r: Result<IpCidr, CidrError>)
    ensures r.Failure? && r.error.MissingPrefix? <==> '/' !in s
  {
    var segments := SplitN2(s, '/');
    if |segments| < 2 then Failure(MissingPrefix)
    else
      match ipv4(segments[0])
      case None => Failure(BadAddress)
      case Some(addr) =>
        match ParseU8(segments[1])
        case None => Failure(BadPrefixLength)
        case Some(prefix) => Success(IpCidr(V4(addr), prefix))
  }

  /** For `a/t` with no `/` in `a`: the address half is exactly `a` and the prefix
      half exactly `t`; the result is the pair of their parses, and each failure
      names the half that failed (the address is checked first). */
  lemma ParseCidrHalves(ipv4: string -> Option<Ipv4Addr>, a: string, t: string)
    requires '/' !in a
    ensures ParseCidr(ipv4, a + "/" + t).Success? <==> ipv4(a).Some? && ParseU8(t).Some?
    ensures ParseCidr(ipv4, a + "/" + t).Success? ==>
              ParseCidr(ipv4, a + "/" + t).value == IpCidr(V4(ipv4(a).value), ParseU8(t).value)
    ensures ipv4(a).None? ==> ParseCidr(ipv4, a + "/" + t) == Failure(BadAddress)
    ensures ipv4(a).Some? && ParseU8(t).None? ==> ParseCidr(ipv4, a + "/" + t) == Failure(BadPrefixLength)
  {
    SplitN2Unique(a, '/', t);
  }

  /** A second `/` is not ignored: it ends up in the prefix text, which then fails. */
  lemma ParseCidrRejectsExtraSeparator(ipv4: string -> Option<Ipv4Addr>, a: string, t: string)
    requires '/' !in a && '/' in t
    ensures ParseCidr(ipv4, a + "/" + t).Failure?
  {
    SplitN2Unique(a, '/', t);
    var i :| 0 <= i < |t| && t[i] == '/';
    ParseU8RejectsSeparator(t, i);
  }

  /** Round trip through the display form: when the IPv4 parser reads back the
      dotted quad it is given, parsing `address/len` returns the same prefix. */
  lemma ParseCidrOfDisplay(ipv4: string -> Option<Ipv4Addr>, c: IpCidr)
    requires ipv4(AddressToString(c.address)) == Some(c.address.v4)
    ensures ParseCidr(ipv4, CidrToString(c)) == Success(c)
  {
    ParseCidrHalves(ipv4, AddressToString(c.address), ToDecimal(c.prefixLen as nat));
    ParseU8OfDecimal(c.prefixLen);
  }

  /** The prefix of `10.8.0.0/24` is 24 whenever the address half parses. */
  lemma ParseCidrExample(ipv4: string -> Option<Ipv4Addr>, net: Ipv4Addr)
    requires ipv4("10.8.0.0") == Some(net)
    ensures ParseCidr(ipv4, "10.8.0.0/24") == Success(IpCidr(V4(net), 24))
  {
    var a, t := "10.8.0.0", "24";
    assert "10.8.0.0/24" == a + "/" + t;
    assert ParseU8(t) == Some(24) by {
      assert t[..1] == "2";
      assert DigitsValue(t) == 24;
    }
    ParseCidrHalves(ipv4, a, t);
  }
}
