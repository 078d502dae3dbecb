/** Address values handed between the configuration and the interface setup:
    IPv4 addresses, the IP address wrapper and the CIDR prefix, with the textual
    forms their `Display` implementations write (`a.b.c.d` and `address/len`). */
module Net {
  import opened Decimal

  /** An IPv4 address as its four octets, most significant first. */
  datatype Ipv4Addr = Ipv4Addr(a: u8, b: u8, c: u8, d: u8)

  /** An IP address; only the IPv4 variant is ever produced by the configuration. */
  datatype IpAddress = V4(v4: Ipv4Addr)

  /** A network prefix: an address together with a prefix length. */
  datatype IpCidr = IpCidr(address: IpAddress, prefixLen: u8)

  /** Dotted-quad rendering of an IPv4 address. */
  function Ipv4ToString(x: Ipv4Addr): (s: string)
    ensures forall i | 0 <= i < |s| :: IsDigit(s[i]) || s[i] == '.'
    ensures '/' !in s
  {
    ToDecimal(x.a as nat) + "." + ToDecimal(x.b as nat) + "."
    + ToDecimal(x.c as nat) + "." + ToDecimal(x.d as nat)
  }

  function AddressToString(ip: IpAddress): (s: string)
    ensures forall i | 0 <= i < |s| :: IsDigit(s[i]) || s[i] == '.'
    ensures '/' !in s
  {
    Ipv4ToString(ip.v4)
  }

  /** `address/len`, the form handed to `ip route add`. */
  function CidrToString(c: IpCidr): (s: string)
    ensures exists i | 0 <= i < |s| :: s[i] == '/'
    ensures exists i | 0 <= i < |s| ::
      s[i] == '/' && forall j | 0 <= j < |s| && j != i :: IsDigit(s[j]) || s[j] == '.'
  {
    var a := AddressToString(c.address);
    var s := a + "/" + ToDecimal(c.prefixLen as nat);
    assert s[|a|] == '/';
    assert forall j | 0 <= j < |s| && j != |a| :: IsDigit(s[j]) || s[j] == '.' by {
      forall j | 0 <= j < |s| && j != |a| ensures IsDigit(s[j]) || s[j] == '.' {
        if j < |a| { assert s[j] == a[j]; } else { assert s[j] == ToDecimal(c.prefixLen as nat)[j - |a| - 1]; }
      }
    }
    s
  }
}
