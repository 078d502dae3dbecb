# seeker startup configuration, modelled in Dafny

A model of the network-environment setup of the seeker TUN proxy client:

- the conversion of the decoded configuration record (`YamlConfig`) into a validated
  `Config`, including `parse_cidr` and the `u8` prefix-length parser it relies on
  (`config/src/lib.rs`);
- the `DNSSetup` guard that saves `/etc/resolv.conf`, overrides it with
  `nameserver 127.0.0.1`, and writes the saved bytes back on release;
- `setup_ip`, which issues three `ip` commands in order and stops at the first failure
  (`src/sysconfig/linux.rs`).

Every `unwrap`/`expect` panic on a field parse, on opening the resolver file, on the
UTF-8 check and on spawning or running an `ip` command becomes a `Failure`/`Fail` value;
the other I/O panics are listed under "Left out". The collaborator parsers
(`ServerAddr::from_str`, `CipherType::from_str`, `Rule::from_str`, and `str::parse` into
`Ipv4Addr` and `SocketAddr`) are function-valued parameters (`ConfigLoader.Parsers`).
`ServerAddr`, `CipherType`, `SocketAddr` and `Rule` are abstract types; `Ipv4Addr` is a
concrete four-octet datatype whose parser is left as a parameter. The resolver file is a value (`ResolvConf.FileState`). The
process runner is a parameter that gets the history of earlier invocations
(`IpSetup.Executor`). Whether info-level logging is on is a parameter of `Acquire`, because
the UTF-8 check on the saved bytes only runs inside the `info!` call.

Modules: `Wrappers` (Option/Result/Outcome), `Decimal` (`u8` parsing and decimal
rendering), `Net` (IPv4 address, IP address, CIDR and their display forms), `Cidr`
(`parse_cidr`), `ConfigLoader` (`Config::from_config_file`), `Utf8` (well-formed UTF-8),
`ResolvConf` (`DNSSetup`), `IpSetup` (`setup_ip`).

Two behaviours worth knowing:

- A CIDR text with more than one `/` is rejected: `splitn(2, '/')` leaves everything after
  the first `/` in the prefix text, which then fails `u8` parsing
  (`Cidr.ParseCidrRejectsExtraSeparator`).
- Release does not always restore the resolver file byte for byte. See Findings.

## Model

| member | source | states |
|---|---|---|
| Decimal.ParseU8 | config/src/lib.rs:85 | `u8::from_str` as used for the prefix length: a pure digit string is accepted exactly when its value is at most 255, with that value; a lone `+` is rejected; anything accepted is digits with at most a leading `+` |
| Decimal.ParseU8OfDecimal | config/src/lib.rs:85 | every `u8` written in decimal parses back to itself |
| Decimal.ParseU8IgnoresSignAndZeros | config/src/lib.rs:85 | a leading `+` or a leading zero does not change the parsed value |
| Decimal.ParseU8RejectsSeparator | config/src/lib.rs:81-85 | a prefix text that still contains a `/` never parses |
| Cidr.FirstIndex | config/src/lib.rs:81 | finds the first separator: none exactly when the separator is absent, otherwise a position holding it with no earlier occurrence |
| Cidr.SplitN2 | config/src/lib.rs:81 | `splitn(2, '/')` gives one segment (the whole text) exactly when there is no `/`, otherwise two segments that rebuild the text around a `/` and whose first has no `/` |
| Cidr.SplitN2Unique | config/src/lib.rs:81-83 | for `a + "/" + b` with no `/` in `a`, the segments are exactly `a` and `b` |
| Cidr.ParseCidr | config/src/lib.rs:80-87 | fails with the missing-segment error exactly when the text has no `/` |
| Cidr.ParseCidrHalves | config/src/lib.rs:81-86 | for `A/t` with no `/` in `A`: success iff `A` parses as IPv4 and `t` as `u8`, the result's address is `parse(A)` and its length `parse(t)`, an address failure is reported before a prefix failure |
| Cidr.ParseCidrRejectsExtraSeparator | config/src/lib.rs:81-85 | a second `/` makes the parse fail |
| Cidr.ParseCidrOfDisplay | config/src/lib.rs:80-86 | parsing the `address/len` display form of a prefix gives the prefix back, when the IPv4 parser reads back its dotted quad |
| Cidr.ParseCidrExample | config/src/lib.rs:80-86 | `10.8.0.0/24` gives prefix length 24 whenever its address half parses |
| ConfigLoader.FromSecs | config/src/lib.rs:59-61 | the timeout becomes a well-formed duration (sub-second part below one second) whose total length is exactly that many seconds |
| ConfigLoader.ParseRules | config/src/lib.rs:70-75 | succeeds iff every rule text parses; then one rule per text, same order and length; otherwise the index of the first text that fails, all earlier ones having parsed |
| ConfigLoader.FromConfig | config/src/lib.rs:54-76 | all or nothing: a `Config` exists iff the address, cipher, `dns_start_ip`, `dns_server`, `tun_ip`, `tun_cidr` and every rule parse; its fields are those parses, `tun_name` and password are copied verbatim, the timeout maps `None` to `None` and `t` to `t` seconds; a failure names the first field, in evaluation order, that did not parse |
| ConfigLoader.UnknownCipherRejected | config/src/lib.rs:55-58 | when the server address parses, an unknown cipher name fails the load with an error naming the method field (the address `unwrap` runs first) |
| ConfigLoader.ExampleDocumentLoads | config/src/lib.rs:54-76 | the sample document with `tun_cidr: 10.8.0.0/24` and no rules loads with prefix length 24, `tun_name` `tun0` and an empty rule set |
| Utf8.AsciiIsValid | src/sysconfig/linux.rs:24 | ASCII bytes, the override line among them, pass the UTF-8 check |
| Utf8.InvalidByteRejected | src/sysconfig/linux.rs:24 | a byte from 0xF5 to 0xFF anywhere fails the UTF-8 check |
| ResolvConf.OverrideLineIsUtf8 | src/sysconfig/linux.rs:24-28 | the override line itself passes the UTF-8 check, so a second acquisition while one is active succeeds |
| ResolvConf.WriteAtStart | src/sysconfig/linux.rs:41 | a write at offset 0 without truncation replaces the first bytes and keeps the rest; the length is the larger of the two |
| ResolvConf.Acquire | src/sysconfig/linux.rs:12-31 | succeeds iff the file exists and, with info logging on, is valid UTF-8; then the guard holds the entire prior content and the file is exactly `nameserver 127.0.0.1`; a failure leaves the file unchanged and names its cause |
| ResolvConf.Release | src/sysconfig/linux.rs:34-42 | fails iff the file is missing; otherwise the file starts with the saved bytes, keeps the tail of the current content past them, and has the longer of the two lengths |
| ResolvConf.ReleaseExactIff | src/sysconfig/linux.rs:37-41 | release leaves exactly the saved bytes iff they are at least as long as the current content |
| ResolvConf.AcquireReleaseRoundTrip | src/sysconfig/linux.rs:12-42 | acquire then release gives back the original followed by the part of the override line past its length, which equals the original iff it is at least 20 bytes long |
| ResolvConf.EmptyOriginalNotRestored | src/sysconfig/linux.rs:26-41 | an empty resolver file ends up holding the whole override line after acquire and release |
| ResolvConf.RestoreTruncating | src/sysconfig/linux.rs:37-41 | the corrected release leaves exactly the saved bytes in an existing file, and fails iff the file is missing |
| ResolvConf.TruncatingRoundTrip | src/sysconfig/linux.rs:12-42 | with the corrected release, acquire then release restores every original byte for byte |
| ResolvConf.ReleaseIdempotent | src/sysconfig/linux.rs:37-41 | releasing twice leaves the same file as releasing once |
| ResolvConf.NestedGuards | src/sysconfig/linux.rs:12-42 | a second guard taken while one is active saves the override line; released in reverse order (scope drop order) the file ends as after one acquire and release; released in acquisition order the override stays in effect |
| IpSetup.RunFailFast | src/sysconfig/linux.rs:45-80 | the commands issued are a prefix of the steps, in order; every issued step but the last succeeded; it passes iff all steps were issued and succeeded; a failure names the last issued step and carries its stdout and stderr |
| IpSetup.SetupIp | src/sysconfig/linux.rs:45-80 | issues exactly these argument vectors: `addr replace <ip> dev <name>`, then `link set <name> up`, then `route add <cidr> dev <name>`, each only after the previous one succeeded; returns normally iff all three were issued and succeeded; a failed step is the last issued; a spawn failure is reported only when the runner could not start the process, and an unsuccessful exit carries that step's stdout and stderr |

## Left out

- Opening the configuration file and YAML decoding (`config/src/lib.rs:52-53`): the decoded record is the input.
- The internals of `ServerAddr`, `CipherType`, `SocketAddr` and `Rule`, and `Ipv4Addr` parsing: their sources are not part of this model. The four types are abstract; the parsers are parameters.
- `ProxyRules::new` (`config/src/lib.rs:70`): its source is not part of this model; it is assumed to keep the rule vector unchanged and in order (`ConfigLoader.ProxyRules` is a plain wrapper).
- `ServerConfig::new` (`config/src/lib.rs:55`): its source is not part of this model; it is assumed to be a plain constructor that stores its four arguments.
- Net.AddressToString, Net.CidrToString: smoltcp's `Display` for addresses and prefixes is not part of this model; the forms `a.b.c.d` and `address/len`, with every number in shortest decimal (`Decimal.ToDecimal`), are assumed. Their shape is stated (an address text holds only digits and dots; a prefix text holds exactly one `/`, every other character a digit or dot), not proved against smoltcp.
- Utf8.ValidUtf8: `std::str::from_utf8` is not part of this model; it is assumed to accept exactly the well-formed byte sequences of the Unicode Standard, table 3-7.
- Any prefix-length check inside `IpCidr::new`: its source is not part of this model, so any `u8` is accepted as a prefix length.
- IPv6 and unspecified `IpAddress` variants: the configuration only produces IPv4 values.
- Failures of `read_to_end`, `set_len`, `seek` and `write_all` on the resolver file: only the open failure and the UTF-8 check are modelled as failure points.
- `tracing::info!` output and the UTF-8 decoding of command output for the panic message: the failure carries the raw captured bytes.
- `Arc` sharing of the server configuration, and when `Drop` runs on unwinding or signals: release is an explicit call.
- Concurrent access to the resolver file by other processes.

## Findings

| source | as written | input that shows it | evidently intended | confidence | as-written member | corrected member |
|---|---|---|---|---|---|---|
| src/sysconfig/linux.rs:37-41 | release opens the resolver file for writing without truncation and writes the saved bytes at offset 0, so a saved content shorter than the 20-byte override line comes back followed by the rest of that line | an empty `/etc/resolv.conf`: after acquire and release it holds `nameserver 127.0.0.1` | the file holds exactly the bytes it had before acquisition (open with truncation) | high; not executed | ResolvConf.EmptyOriginalNotRestored | ResolvConf.TruncatingRoundTrip |
