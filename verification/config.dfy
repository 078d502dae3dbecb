/** `Config::from_config_file` (config/src/lib.rs) without the file read and the
    YAML decoding: the decoded `YamlConfig` record is the input, and the collaborator
    parsers are parameters. The conversion is all-or-nothing: the first field that
    fails to parse (in the order the source evaluates them) is reported and no
    `Config` is produced. */
module ConfigLoader {
  import opened Wrappers
  import opened Decimal
  import opened Net
  import opened Cidr

  /** Rust's `u32`, the type of the optional timeout in the configuration file. */
  newtype u32 = x: int | 0 <= x < 0x1_0000_0000

  /** Values produced by collaborators defined outside this model. */
  type ServerAddr(==)
  type CipherType(==)
  type SocketAddr(==)
  type Rule(==)

  /** The collaborator parsers: `ServerAddr::from_str`, `CipherType::from_str`,
      `str::parse` into `Ipv4Addr` and `SocketAddr`, and `Rule::from_str`.
      `None` stands for the `Err` each of them may return. */
  datatype Parsers = Parsers(
    serverAddr: string -> Option<ServerAddr>,
    cipher: string -> Option<CipherType>,
    ipv4: string -> Option<Ipv4Addr>,
    socketAddr: string -> Option<SocketAddr>,
    rule: string -> Option<Rule>)

  /** The decoded `server_config` section. */
  datatype YamlServerConfig = YamlServerConfig(
    addr: string, password: string, methodName: string, timeout: Option<u32>)

  /** The decoded configuration document, every field still text. */
  datatype YamlConfig = YamlConfig(
    serverConfig: YamlServerConfig,
    dnsStartIp: string,
    dnsServer: string,
    tunName: string,
    tunIp: string,
    tunCidr: string,
    rules: seq<string>)

  const NanosPerSec: nat := 1_000_000_000

  /** `std::time::Duration`: whole seconds plus a sub-second part in nanoseconds
      (below one second for every value `std` builds). */
  datatype Duration = Duration(secs: nat, nanos: nat)

  /** The length of a duration in nanoseconds. */
  function TotalNanos(d: Duration): nat {
    d.secs * NanosPerSec + d.nanos
  }

  datatype ServerConfig = ServerConfig(
    addr: ServerAddr, password: string, cipher: CipherType, timeout: Option<Duration>)

  /** The rule set built from the parsed rules, in input order. */
  datatype ProxyRules = ProxyRules(rules: seq<Rule>)

  /** The validated configuration; it exists only when every field parsed. */
  datatype Config = Config(
    serverConfig: ServerConfig,
    dnsStartIp: Ipv4Addr,
    dnsServer: SocketAddr,
    tunName: string,
    tunIp: Ipv4Addr,
    tunCidr: IpCidr,
    rules: ProxyRules)

  /** The field whose parse aborted the conversion, with its text. */
  datatype ConfigError =
    | BadServerAddr(text: string)
    | BadMethod(text: string)
    | BadDnsStartIp(text: string)
    | BadDnsServer(text: string)
    | BadTunIp(text: string)
    | BadTunCidr(text: string, cause: CidrError)
    | BadRule(index: nat, text: string)

  /** `Duration::from_secs`. */
  function FromSecs(t: u32): (d: Duration)
    ensures d.nanos < NanosPerSec
    ensures TotalNanos(d) == t as nat * NanosPerSec
  {
    Duration(t as nat, 0)
  }

  /** Every rule text is accepted by the rule parser. */
  predicate AllRulesParse(p: Parsers, texts: seq<string>) {
    forall i | 0 <= i < |texts| :: p.rule(texts[i]).Some?
  }

  /** `rules.iter().map(|r| Rule::from_str(r).unwrap()).collect()`: one rule per
      text in the same order, or the index of the first text that does not parse. */
  function ParseRules(p: Parsers, texts: seq<string>): (r: Result<seq<Rule>, nat>)
    ensures r.Success? <==> AllRulesParse(p, texts)
    ensures r.Success? ==> |r.value| == |texts|
    ensures r.Success? ==> forall i | 0 <= i < |texts| :: p.rule(texts[i]) == Some(r.value[i])
    ensures r.Failure? ==> r.error < |texts| && p.rule(texts[r.error]).None?
    ensures r.Failure? ==> forall j | 0 <= j < r.error :: p.rule(texts[j]).Some?
  {
    if texts == [] then Success([])
    else
      match p.rule(texts[0])
      case None => Failure(0)
      case Some(first) =>
        match ParseRules(p, texts[1..])
        case Failure(i) => Failure(i + 1)
        case Success(rest) =>
          assert forall i | 1 <= i < |texts| :: texts[i] == texts[1..][i - 1];
          Success([first] + rest)
  }

  /** `Config::from_config_file` after decoding. Fields are parsed in source order:
      server address, cipher, `dns_start_ip`, `dns_server`, `tun_ip`, `tun_cidr`,
      then each rule. */
  function FromConfig(p: Parsers, y: YamlConfig): (r: Result<Config, ConfigError>)
    // all or nothing
    ensures r.Success? <==>
              && p.serverAddr(y.serverConfig.addr).Some?
              && p.cipher(y.serverConfig.methodName).Some?
              && p.ipv4(y.dnsStartIp).Some?
              && p.socketAddr(y.dnsServer).Some?
              && p.ipv4(y.tunIp).Some?
              && ParseCidr(p.ipv4, y.tunCidr).Success?
              && AllRulesParse(p, y.rules)
    // on success every field is the parse of its text, or the text itself
    ensures r.Success? ==>
              && Some(r.value.serverConfig.addr) == p.serverAddr(y.serverConfig.addr)
              && r.value.serverConfig.password == y.serverConfig.password
              && Some(r.value.serverConfig.cipher) == p.cipher(y.serverConfig.methodName)
              && Some(r.value.dnsStartIp) == p.ipv4(y.dnsStartIp)
              && Some(r.value.dnsServer) == p.socketAddr(y.dnsServer)
              && r.value.tunName == y.tunName
              && Some(r.value.tunIp) == p.ipv4(y.tunIp)
              && Success(r.value.tunCidr) == ParseCidr(p.ipv4, y.tunCidr)
    ensures r.Success? ==>
              && (r.value.serverConfig.timeout.None? <==> y.serverConfig.timeout.None?)
              && (y.serverConfig.timeout.Some? ==>
                    r.value.serverConfig.timeout.value.secs == y.serverConfig.timeout.value as nat
                    && r.value.serverConfig.timeout.value.nanos == 0)
    ensures r.Success? ==>
              && |r.value.rules.rules| == |y.rules|
              && forall i | 0 <= i < |y.rules| :: Some(r.value.rules.rules[i]) == p.rule(y.rules[i])
    // on failure the error names the first field that did not parse
    ensures r.Failure? && r.error.BadServerAddr? ==>
              r.error.text == y.serverConfig.addr && p.serverAddr(y.serverConfig.addr).None?
    ensures r.Failure? && r.error.BadMethod? ==>
              && p.serverAddr(y.serverConfig.addr).Some?
              && r.error.text == y.serverConfig.methodName && p.cipher(y.serverConfig.methodName).None?
    ensures r.Failure? && r.error.BadDnsStartIp? ==>
              && p.serverAddr(y.serverConfig.addr).Some? && p.cipher(y.serverConfig.methodName).Some?
              && r.error.text == y.dnsStartIp && p.ipv4(y.dnsStartIp).None?
    ensures r.Failure? && r.error.BadDnsServer? ==>
              && p.serverAddr(y.serverConfig.addr).Some? && p.cipher(y.serverConfig.methodName).Some?
              && p.ipv4(y.dnsStartIp).Some?
              && r.error.text == y.dnsServer && p.socketAddr(y.dnsServer).None?
    ensures r.Failure? && r.error.BadTunIp? ==>
              && p.serverAddr(y.serverConfig.addr).Some? && p.cipher(y.serverConfig.methodName).Some?
              && p.ipv4(y.dnsStartIp).Some? && p.socketAddr(y.dnsServer).Some?
              && r.error.text == y.tunIp && p.ipv4(y.tunIp).None?
    ensures r.Failure? && r.error.BadTunCidr? ==>
              && p.serverAddr(y.serverConfig.addr).Some? && p.cipher(y.serverConfig.methodName).Some?
              && p.ipv4(y.dnsStartIp).Some? && p.socketAddr(y.dnsServer).Some?
              && p.ipv4(y.tunIp).Some?
              && r.error.text == y.tunCidr
              && ParseCidr(p.ipv4, y.tunCidr) == Failure(r.error.cause)
    ensures r.Failure? && r.error.BadRule? ==>
              && p.serverAddr(y.serverConfig.addr).Some? && p.cipher(y.serverConfig.methodName).Some?
              && p.ipv4(y.dnsStartIp).Some? && p.socketAddr(y.dnsServer).Some?
              && p.ipv4(y.tunIp).Some? && ParseCidr(p.ipv4, y.tunCidr).Success?
              && r.error.index < |y.rules| && r.error.text == y.rules[r.error.index]
              && p.rule(y.rules[r.error.index]).None?
              && forall j | 0 <= j < r.error.index :: p.rule(y.rules[j]).Some?
  {
    var ys := y.serverConfig;
    match p.serverAddr(ys.addr)
    case None => Failure(BadServerAddr(ys.addr))
    case Some(addr) =>
    match p.cipher(ys.methodName)
    case None => Failure(BadMethod(ys.methodName))
    case Some(cipher) =>
    var timeout := match ys.timeout case None => None case Some(t) => Some(FromSecs(t));
    var server := ServerConfig(addr, ys.password, cipher, timeout);
    match p.ipv4(y.dnsStartIp)
    case None => Failure(BadDnsStartIp(y.dnsStartIp))
    case Some(dnsStartIp) =>
    match p.socketAddr(y.dnsServer)
    case None => Failure(BadDnsServer(y.dnsServer))
    case Some(dnsServer) =>
    match p.ipv4(y.tunIp)
    case None => Failure(BadTunIp(y.tunIp))
    case Some(tunIp) =>
    match ParseCidr(p.ipv4, y.tunCidr)
    case Failure(e) => Failure(BadTunCidr(y.tunCidr, e))
    case Success(tunCidr) =>
    match ParseRules(p, y.rules)
    case Failure(i) => Failure(BadRule(i, y.rules[i]))
    case Success(rules) =>
      Success(Config(server, dnsStartIp, dnsServer, y.tunName, tunIp, tunCidr, ProxyRules(rules)))
  }

  /** An unknown cipher name aborts the load with an error naming the `method`
      field, whenever the server address before it parsed. */
  lemma UnknownCipherRejected(p: Parsers, y: YamlConfig)
    requires p.serverAddr(y.serverConfig.addr).Some?
    requires p.cipher(y.serverConfig.methodName).None?
    ensures FromConfig(p, y) == Failure(BadMethod(y.serverConfig.methodName))
  {
  }

  /** The end-to-end document with `tun_cidr: 10.8.0.0/24` and no rules loads, and
      its prefix has length 24, whenever the collaborators accept its other fields. */
  lemma ExampleDocumentLoads(p: Parsers, net: Ipv4Addr)
    requires p.serverAddr("1.2.3.4:8388").Some?
    requires p.cipher("aes-256-gcm").Some?
    requires p.ipv4("10.8.0.1").Some? && p.ipv4("10.8.0.2").Some?
    requires p.socketAddr("8.8.8.8:53").Some?
    requires p.ipv4("10.8.0.0") == Some(net)
    ensures var y := YamlConfig(YamlServerConfig("1.2.3.4:8388", "x", "aes-256-gcm", None),
                                "10.8.0.1", "8.8.8.8:53", "tun0", "10.8.0.2", "10.8.0.0/24", []);
            && FromConfig(p, y).Success?
            && FromConfig(p, y).value.tunCidr == IpCidr(V4(net), 24)
            && FromConfig(p, y).value.tunName == "tun0"
            && FromConfig(p, y).value.rules == ProxyRules([])
  {
    ParseCidrExample(p.ipv4, net);
  }
}
