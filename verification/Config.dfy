/**
 The service configuration: loading it from an environment, validating it, baking it into an
 install plan and into the text of a systemd unit, and reading it back from there.
 */
module Config {
  import opened Prelude
  import opened Text
  import Decimal
  import Host

  /** The environment variables, with their names. */
  datatype Key =
    | NodeUrl | Ip | DnsPort | HttpPort | HttpFallbackPort | TldKey | Ttl | LocalIp | LocalPort | SecureUpstream
  {
    function Name(): string {
      match this
      case NodeUrl => "DIG_NODE_URL"
      case Ip => "DIG_DNS_IP"
      case DnsPort => "DIG_DNS_DNS_PORT"
      case HttpPort => "DIG_DNS_HTTP_PORT"
      case HttpFallbackPort => "DIG_DNS_HTTP_FALLBACK_PORT"
      case TldKey => "DIG_DNS_TLD"
      case Ttl => "DIG_DNS_TTL"
      case LocalIp => "DIG_DNS_LOCAL_IP"
      case LocalPort => "DIG_DNS_LOCAL_PORT"
      case SecureUpstream => "DIG_DNS_SECURE_UPSTREAM"
    }
  }

  datatype Config = Config(
    loopbackIp: Ipv4,
    dnsPort: u16,
    httpPort: u16,
    httpFallbackPort: u16,
    tld: string,
    dnsTtlSecs: u32,
    nodeUrl: Option<string>,
    digLocalIp: Ipv4,
    digLocalPort: u16,
    secureUpstream: bool)

  datatype ConfigError =
    | InvalidIp(key: Key, text: string)
    | InvalidPort(key: Key, text: string)
    | InvalidInt(key: Key, text: string)
    | NotLoopback(ip: Ipv4)
    | EmptyTld
    | InvalidTldCharset(text: string)
    | InvalidNodeUrl(text: string)
    | InvalidToggle(text: string)

  const DEFAULT := Config(
    Ipv4(127, 0, 0, 5), 53, 80, 8053, "dig", 2, None, Ipv4(127, 0, 0, 2), 80, true)

  // -- values ----------------------------------------------------------------------------------

  function Numerals(ip: Ipv4): (parts: seq<string>)
    ensures |parts| == 4 && forall i :: 0 <= i < 4 ==> parts[i] != "" && Decimal.AllDigits(parts[i])
  {
    [Decimal.Print(ip.a as nat), Decimal.Print(ip.b as nat), Decimal.Print(ip.c as nat), Decimal.Print(ip.d as nat)]
  }

  function PrintIp(ip: Ipv4): string {
    Join(Numerals(ip), '.')
  }

  /** One to three digits, without a leading zero, up to 255. */
  function ParseOctet(s: string): Option<byte> {
    if 1 <= |s| <= 3 && Decimal.AllDigits(s) && (|s| > 1 ==> s[0] != '0') && Decimal.Value(s) <= 255
    then Some(Decimal.Value(s) as byte)
    else None
  }

  function ParseIp(s: string): Option<Ipv4> {
    var parts := Split(s, '.');
    if |parts| != 4 then None
    else
      var a, b, c, d := ParseOctet(parts[0]), ParseOctet(parts[1]), ParseOctet(parts[2]), ParseOctet(parts[3]);
      if a.None? || b.None? || c.None? || d.None? then None
      else Some(Ipv4(a.value, b.value, c.value, d.value))
  }

  function ParsePort(key: Key, v: string): Result<u16, ConfigError> {
    match Decimal.Parse(Trim(v), 0xFFFF)
    case None => Err(InvalidPort(key, v))
    case Some(p) => if p != 0 then Ok(p) else Err(InvalidPort(key, v))
  }

  function ParseTtl(v: string): Result<u32, ConfigError> {
    match Decimal.Parse(Trim(v), 0xFFFF_FFFF)
    case None => Err(InvalidInt(Ttl, v))
    case Some(n) => Ok(n)
  }

  function ParseToggle(v: string): Result<bool, ConfigError> {
    if Lower(Trim(v)) == "on" then Ok(true)
    else if Lower(Trim(v)) == "off" then Ok(false)
    else Err(InvalidToggle(v))
  }

  function NormalizeTld(raw: string): string {
    var t := Trim(raw);
    Lower(if t != "" && t[0] == '.' then t[1..] else t)
  }

  predicate IsSafeNodeUrl(url: string) {
    forall i :: 0 <= i < |url| ==> !(url[i] as int < 0x20 || url[i] as int == 0x7f)
  }

  /** The first source that is not blank, trimmed: flag, then environment, then file. */
  function ResolveNodeOverride(flag: Option<string>, env: Option<string>, file: Option<string>): Option<string> {
    if flag.Some? && Trim(flag.value) != "" then Some(Trim(flag.value))
    else if env.Some? && Trim(env.value) != "" then Some(Trim(env.value))
    else if file.Some? && Trim(file.value) != "" then Some(Trim(file.value))
    else None
  }

  // -- validation ------------------------------------------------------------------------------

  predicate IsValid(c: Config) {
    && c.loopbackIp.IsLoopback() && c.digLocalIp.IsLoopback()
    && c.dnsPort != 0 && c.httpPort != 0 && c.httpFallbackPort != 0 && c.digLocalPort != 0
    && Host.IsSafeTld(c.tld)
    && (c.nodeUrl.Some? ==> IsSafeNodeUrl(c.nodeUrl.value))
  }

  method Validate(c: Config) returns (r: Option<ConfigError>)
    ensures r.None? <==> IsValid(c)
    ensures r == ValidationError(c)
  {
    if !c.loopbackIp.IsLoopback() {
      return Some(NotLoopback(c.loopbackIp));
    }
    if !c.digLocalIp.IsLoopback() {
      return Some(NotLoopback(c.digLocalIp));
    }
    var ports := Ports(c);
    for i := 0 to |ports|
      invariant forall j :: 0 <= j < i ==> ports[j].1 != 0
    {
      if ports[i].1 == 0 {
        assert (i > 0 ==> ports[0].1 != 0) && (i > 1 ==> ports[1].1 != 0) && (i > 2 ==> ports[2].1 != 0);
        return Some(InvalidPort(ports[i].0, "0"));
      }
    }
    assert ports[0].1 != 0 && ports[1].1 != 0 && ports[2].1 != 0 && ports[3].1 != 0;
    if c.tld == "" {
      return Some(EmptyTld);
    }
    if !Host.IsSafeTld(c.tld) {
      return Some(InvalidTldCharset(c.tld));
    }
    if c.nodeUrl.Some? && !IsSafeNodeUrl(c.nodeUrl.value) {
      return Some(InvalidNodeUrl(c.nodeUrl.value));
    }
    return None;
  }

  function Ports(c: Config): seq<(Key, u16)> {
    [(DnsPort, c.dnsPort), (HttpPort, c.httpPort), (HttpFallbackPort, c.httpFallbackPort), (LocalPort, c.digLocalPort)]
  }

  /** The first invariant a configuration breaks. */
  function ValidationError(c: Config): Option<ConfigError> {
    if !c.loopbackIp.IsLoopback() then Some(NotLoopback(c.loopbackIp))
    else if !c.digLocalIp.IsLoopback() then Some(NotLoopback(c.digLocalIp))
    else if c.dnsPort == 0 then Some(InvalidPort(DnsPort, "0"))
    else if c.httpPort == 0 then Some(InvalidPort(HttpPort, "0"))
    else if c.httpFallbackPort == 0 then Some(InvalidPort(HttpFallbackPort, "0"))
    else if c.digLocalPort == 0 then Some(InvalidPort(LocalPort, "0"))
    else if c.tld == "" then Some(EmptyTld)
    else if !Host.IsSafeTld(c.tld) then Some(InvalidTldCharset(c.tld))
    else if c.nodeUrl.Some? && !IsSafeNodeUrl(c.nodeUrl.value) then Some(InvalidNodeUrl(c.nodeUrl.value))
    else None
  }

  // -- loading ---------------------------------------------------------------------------------

  type Env = Key -> Option<string>

  function ReadIp(env: Env, key: Key, otherwise: Ipv4): Result<Ipv4, ConfigError> {
    match env(key)
    case None => Ok(otherwise)
    case Some(v) =>
      match ParseIp(Trim(v))
      case None => Err(InvalidIp(key, v))
      case Some(ip) => Ok(ip)
  }

  function ReadPort(env: Env, key: Key, otherwise: u16): Result<u16, ConfigError> {
    if env(key).None? then Ok(otherwise) else ParsePort(key, env(key).value)
  }

  function ReadTtl(env: Env): Result<u32, ConfigError> {
    if env(Ttl).None? then Ok(DEFAULT.dnsTtlSecs) else ParseTtl(env(Ttl).value)
  }

  function ReadToggle(env: Env): Result<bool, ConfigError> {
    if env(SecureUpstream).None? then Ok(DEFAULT.secureUpstream) else ParseToggle(env(SecureUpstream).value)
  }

  function ReadTld(env: Env): string {
    if env(TldKey).None? then DEFAULT.tld else NormalizeTld(env(TldKey).value)
  }

  /** The values in the order they are read, the first malformed one deciding. */
  function ReadAll(env: Env): Result<Config, ConfigError> {
    var ip :- ReadIp(env, Ip, DEFAULT.loopbackIp);
    var dns :- ReadPort(env, DnsPort, DEFAULT.dnsPort);
    var http :- ReadPort(env, HttpPort, DEFAULT.httpPort);
    var fallback :- ReadPort(env, HttpFallbackPort, DEFAULT.httpFallbackPort);
    var ttl :- ReadTtl(env);
    var localIp :- ReadIp(env, LocalIp, DEFAULT.digLocalIp);
    var localPort :- ReadPort(env, LocalPort, DEFAULT.digLocalPort);
    var secure :- ReadToggle(env);
    Ok(Config(ip, dns, http, fallback, ReadTld(env), ttl, ResolveNodeOverride(None, env(NodeUrl), None),
              localIp, localPort, secure))
  }

  function Loaded(env: Env): Result<Config, ConfigError> {
    var c :- ReadAll(env);
    match ValidationError(c)
    case Some(e) => Err(e)
    case None => Ok(c)
  }

  /** The fields are set one by one over the defaults. */
  method FromEnv(env: Env) returns (r: Result<Config, ConfigError>)
    ensures r == Loaded(env)
  {
    var cfg := DEFAULT;
    var ip := ReadIp(env, Ip, cfg.loopbackIp);
    if ip.Err? {
      return Err(ip.error);
    }
    cfg := cfg.(loopbackIp := ip.value);
    var port := ReadPort(env, DnsPort, cfg.dnsPort);
    if port.Err? {
      return Err(port.error);
    }
    cfg := cfg.(dnsPort := port.value);
    port := ReadPort(env, HttpPort, cfg.httpPort);
    if port.Err? {
      return Err(port.error);
    }
    cfg := cfg.(httpPort := port.value);
    port := ReadPort(env, HttpFallbackPort, cfg.httpFallbackPort);
    if port.Err? {
      return Err(port.error);
    }
    cfg := cfg.(httpFallbackPort := port.value);
    cfg := cfg.(tld := ReadTld(env));
    var ttl := ReadTtl(env);
    if ttl.Err? {
      return Err(ttl.error);
    }
    cfg := cfg.(dnsTtlSecs := ttl.value);
    cfg := cfg.(nodeUrl := ResolveNodeOverride(None, env(NodeUrl), None));
    ip := ReadIp(env, LocalIp, cfg.digLocalIp);
    if ip.Err? {
      return Err(ip.error);
    }
    cfg := cfg.(digLocalIp := ip.value);
    port := ReadPort(env, LocalPort, cfg.digLocalPort);
    if port.Err? {
      return Err(port.error);
    }
    cfg := cfg.(digLocalPort := port.value);
    var secure := ReadToggle(env);
    if secure.Err? {
      return Err(secure.error);
    }
    cfg := cfg.(secureUpstream := secure.value);
    var invalid := Validate(cfg);
    if invalid.Some? {
      return Err(invalid.value);
    }
    return Ok(cfg);
  }

  // -- baking ----------------------------------------------------------------------------------

  /** The recorded node override: trimmed, and only when not blank. */
  function BakedUrl(c: Config): Option<string> {
    if c.nodeUrl.Some? && Trim(c.nodeUrl.value) != "" then Some(Trim(c.nodeUrl.value)) else None
  }

  function Environment(c: Config): seq<(Key, string)> {
    [(Ip, PrintIp(c.loopbackIp)), (DnsPort, Decimal.Print(c.dnsPort)), (HttpPort, Decimal.Print(c.httpPort)),
     (HttpFallbackPort, Decimal.Print(c.httpFallbackPort)), (TldKey, c.tld), (Ttl, Decimal.Print(c.dnsTtlSecs))]
    + (if BakedUrl(c).Some? then [(NodeUrl, BakedUrl(c).value)] else [])
  }

  function Lookup(pairs: seq<(Key, string)>, key: Key): Option<string> {
    if pairs == [] then None
    else if pairs[0].0 == key then Some(pairs[0].1)
    else Lookup(pairs[1..], key)
  }

  function EnvOf(pairs: seq<(Key, string)>): Env {
    key => Lookup(pairs, key)
  }

  // -- what survives ---------------------------------------------------------------------------

  lemma OctetRoundTrip(b: byte)
    ensures ParseOctet(Decimal.Print(b as nat)) == Some(b)
  {
    Decimal.ValueOfPrint(b as nat);
    var s := Decimal.Print(b as nat);
    if b >= 100 {
      assert s == Decimal.Print(b as nat / 10) + [Decimal.DigitChar(b as nat % 10)];
      var tens := b as nat / 10;
      assert Decimal.Print(tens) == Decimal.Print(tens / 10) + [Decimal.DigitChar(tens % 10)];
    }
  }

  lemma DigitsHaveNo(s: string, c: char)
    requires Decimal.AllDigits(s) && !Decimal.IsDigit(c)
    ensures c !in s
  {
  }

  lemma IpRoundTrip(ip: Ipv4)
    ensures ParseIp(PrintIp(ip)) == Some(ip)
  {
    OctetRoundTrip(ip.a);
    OctetRoundTrip(ip.b);
    OctetRoundTrip(ip.c);
    OctetRoundTrip(ip.d);
    DigitsHaveNo(Numerals(ip)[0], '.');
    SplitOfJoin(Numerals(ip), '.');
  }

  lemma IpText(ip: Ipv4)
    ensures forall i :: 0 <= i < |PrintIp(ip)| ==> Decimal.IsDigit(PrintIp(ip)[i]) || PrintIp(ip)[i] == '.'
    ensures Trim(PrintIp(ip)) == PrintIp(ip)
  {
    DottedDigits(Numerals(ip));
    SolidEndsAreTrimmed(PrintIp(ip));
    TrimOfTrimmed(PrintIp(ip));
  }

  lemma {:induction false} DottedDigits(parts: seq<string>)
    requires |parts| >= 1 && forall i :: 0 <= i < |parts| ==> parts[i] != "" && Decimal.AllDigits(parts[i])
    ensures var s := Join(parts, '.');
            && s != ""
            && (forall i :: 0 <= i < |s| ==> Decimal.IsDigit(s[i]) || s[i] == '.')
            && Decimal.IsDigit(s[0]) && Decimal.IsDigit(s[|s| - 1])
  {
    if |parts| > 1 {
      DottedDigits(parts[1..]);
    }
  }

  lemma NumeralRoundTrip(n: nat, max: nat)
    requires n <= max
    ensures Decimal.Parse(Trim(Decimal.Print(n)), max) == Some(n)
  {
    var s := Decimal.Print(n);
    assert Decimal.IsDigit(s[0]) && Decimal.IsDigit(s[|s| - 1]);
    SolidEndsAreTrimmed(s);
    TrimOfTrimmed(s);
    Decimal.ParseOfPrint(n, max);
  }

  lemma TldRoundTrip(tld: string)
    requires Host.IsSafeTld(tld)
    ensures NormalizeTld(tld) == tld
  {
    assert Host.IsSafeTldChar(tld[0]) && Host.IsSafeTldChar(tld[|tld| - 1]);
    SolidEndsAreTrimmed(tld);
    TrimOfTrimmed(tld);
    Host.SafeTldIsLower(tld);
  }

  lemma UrlRoundTrip(c: Config)
    ensures ResolveNodeOverride(None, BakedUrl(c), None) == BakedUrl(c)
  {
    if BakedUrl(c).Some? {
      TrimIsTrimmed(c.nodeUrl.value);
      TrimOfTrimmed(BakedUrl(c).value);
    }
  }

  lemma TrimKeepsSafe(s: string)
    requires IsSafeNodeUrl(s)
    ensures IsSafeNodeUrl(Trim(s))
  {
    var pre, post := TrimIsPart(s);
    PartIsSafe(pre, Trim(s), post);
  }

  lemma PartIsSafe(pre: string, part: string, post: string)
    requires IsSafeNodeUrl(pre + part + post)
    ensures IsSafeNodeUrl(part)
  {
    var all := pre + part + post;
    assert forall i :: 0 <= i < |part| ==> part[i] == all[|pre| + i];
  }

  lemma LookupEnvironment(c: Config)
    ensures Bakes(EnvOf(Environment(c)), c)
  {
    var env := EnvOf(Environment(c));
    forall key ensures env(key) == LookupBaked(c, key) {
      LookupIs(c, key);
    }
    BakesAll(env, c);
  }

  lemma BakesAll(env: Env, c: Config)
    requires forall key :: env(key) == LookupBaked(c, key)
    ensures Bakes(env, c)
  {
  }

  function LookupBaked(c: Config, key: Key): Option<string> {
    match key
    case Ip => Some(PrintIp(c.loopbackIp))
    case DnsPort => Some(Decimal.Print(c.dnsPort))
    case HttpPort => Some(Decimal.Print(c.httpPort))
    case HttpFallbackPort => Some(Decimal.Print(c.httpFallbackPort))
    case TldKey => Some(c.tld)
    case Ttl => Some(Decimal.Print(c.dnsTtlSecs))
    case NodeUrl => BakedUrl(c)
    case _ => None
  }

  lemma {:induction false} LookupSkips(pairs: seq<(Key, string)>, key: Key, i: nat)
    requires i <= |pairs| && forall j :: 0 <= j < i ==> pairs[j].0 != key
    ensures Lookup(pairs, key) == Lookup(pairs[i..], key)
  {
    if i > 0 {
      LookupSkips(pairs[1..], key, i - 1);
      assert pairs[1..][i - 1..] == pairs[i..];
    } else {
      assert pairs[0..] == pairs;
    }
  }

  lemma LookupIs(c: Config, key: Key)
    ensures Lookup(Environment(c), key) == LookupBaked(c, key)
  {
    var e := Environment(c);
    var at := match key
      case Ip => 0
      case DnsPort => 1
      case HttpPort => 2
      case HttpFallbackPort => 3
      case TldKey => 4
      case Ttl => 5
      case _ => 6;
    LookupSkips(e, key, at);
    if at == 6 {
      assert e[6..] == if BakedUrl(c).Some? then [(NodeUrl, BakedUrl(c).value)] else [];
      assert BakedUrl(c).Some? ==> e[6..][1..] == [];
    }
  }

  /** The configuration as the installed service will see it. */
  function Installed(c: Config): Config {
    c.(nodeUrl := BakedUrl(c), digLocalIp := DEFAULT.digLocalIp, digLocalPort := DEFAULT.digLocalPort,
       secureUpstream := DEFAULT.secureUpstream)
  }

  /** The environment holds what installation bakes, and nothing else. */
  predicate Bakes(env: Env, c: Config) {
    && env(Ip) == Some(PrintIp(c.loopbackIp))
    && env(DnsPort) == Some(Decimal.Print(c.dnsPort))
    && env(HttpPort) == Some(Decimal.Print(c.httpPort))
    && env(HttpFallbackPort) == Some(Decimal.Print(c.httpFallbackPort))
    && env(TldKey) == Some(c.tld)
    && env(Ttl) == Some(Decimal.Print(c.dnsTtlSecs))
    && env(NodeUrl) == BakedUrl(c)
    && env(LocalIp) == None && env(LocalPort) == None && env(SecureUpstream) == None
  }

  lemma PortIsRead(env: Env, key: Key, port: u16, otherwise: u16)
    requires port != 0 && env(key) == Some(Decimal.Print(port))
    ensures ReadPort(env, key, otherwise) == Ok(port)
  {
    NumeralRoundTrip(port, 0xFFFF);
  }

  lemma IpIsRead(env: Env, key: Key, ip: Ipv4, otherwise: Ipv4)
    requires env(key) == Some(PrintIp(ip))
    ensures ReadIp(env, key, otherwise) == Ok(ip)
  {
    IpRoundTrip(ip);
    IpText(ip);
  }

  lemma BakedIsRead(c: Config, env: Env)
    requires IsValid(c) && Bakes(env, c)
    ensures ReadAll(env) == Ok(Installed(c))
  {
    IpIsRead(env, Ip, c.loopbackIp, DEFAULT.loopbackIp);
    PortIsRead(env, DnsPort, c.dnsPort, DEFAULT.dnsPort);
    PortIsRead(env, HttpPort, c.httpPort, DEFAULT.httpPort);
    PortIsRead(env, HttpFallbackPort, c.httpFallbackPort, DEFAULT.httpFallbackPort);
    NumeralRoundTrip(c.dnsTtlSecs, 0xFFFF_FFFF);
    TldRoundTrip(c.tld);
    UrlRoundTrip(c);
  }

  lemma BakedLoads(c: Config, env: Env)
    requires IsValid(c) && Bakes(env, c)
    ensures Loaded(env) == Ok(Installed(c))
  {
    BakedIsRead(c, env);
    if BakedUrl(c).Some? {
      TrimKeepsSafe(c.nodeUrl.value);
    }
  }

  /**
   A valid configuration survives installation: loading the baked environment gives back the
   address, the three ports, the TLD, the TTL and the node override without surrounding blanks,
   with the three fields that are not baked at their defaults.
   */
  lemma ConfigSurvivesInstall(c: Config)
    requires IsValid(c)
    ensures Loaded(EnvOf(Environment(c))) == Ok(Installed(c))
  {
    LookupEnvironment(c);
    BakedLoads(c, EnvOf(Environment(c)));
  }

  /**
   It comes back unchanged exactly when the node override is absent or trimmed and not blank, and
   the three fields that are not baked are at their defaults.
   */
  lemma SurvivesUnchanged(c: Config)
    requires IsValid(c)
    ensures Loaded(EnvOf(Environment(c))) == Ok(c)
            <==> && (c.nodeUrl.None? || (c.nodeUrl.value != "" && Trimmed(c.nodeUrl.value)))
                 && c.digLocalIp == DEFAULT.digLocalIp
                 && c.digLocalPort == DEFAULT.digLocalPort
                 && c.secureUpstream == DEFAULT.secureUpstream
  {
    ConfigSurvivesInstall(c);
    if c.nodeUrl.Some? {
      TrimIsTrimmed(c.nodeUrl.value);
      if Trimmed(c.nodeUrl.value) {
        TrimOfTrimmed(c.nodeUrl.value);
      }
    }
  }

  // -- what every environment loads to ---------------------------------------------------------

  /** An octet is read exactly from its numeral, and so an address from its print. */
  lemma OctetIsRead(s: string, b: byte)
    ensures ParseOctet(s) == Some(b) <==> s == Decimal.Print(b as nat)
  {
    OctetRoundTrip(b);
    if ParseOctet(s) == Some(b) {
      Decimal.PrintOfValue(s);
    }
  }

  lemma IpIsExact(s: string, ip: Ipv4)
    ensures ParseIp(s) == Some(ip) <==> s == PrintIp(ip)
  {
    IpRoundTrip(ip);
    if ParseIp(s) == Some(ip) {
      var parts := Split(s, '.');
      OctetIsRead(parts[0], ip.a);
      OctetIsRead(parts[1], ip.b);
      OctetIsRead(parts[2], ip.c);
      OctetIsRead(parts[3], ip.d);
      JoinOfSplit(s, '.');
      assert parts == Numerals(ip);
    }
  }

  predicate IpFrom(v: Option<string>, otherwise: Ipv4, ip: Ipv4) {
    if v.None? then ip == otherwise else Trim(v.value) == PrintIp(ip)
  }

  predicate PortFrom(v: Option<string>, otherwise: u16, port: u16) {
    if v.None? then port == otherwise else port != 0 && Decimal.Spells(Trim(v.value), port)
  }

  predicate TtlFrom(v: Option<string>, ttl: u32) {
    if v.None? then ttl == 2 else Decimal.Spells(Trim(v.value), ttl)
  }

  /** One dot may stand in front. */
  predicate TldFrom(v: Option<string>, tld: string) {
    if v.None? then tld == "dig"
    else
      var t := Trim(v.value);
      if t != "" && t[0] == '.' then tld == Lower(t[1..]) else tld == Lower(t)
  }

  predicate UrlFrom(v: Option<string>, url: Option<string>) {
    if v.None? || Trim(v.value) == "" then url == None else url == Some(Trim(v.value))
  }

  predicate ToggleFrom(v: Option<string>, on: bool) {
    if v.None? then on else SameIgnoringCase(Trim(v.value), if on then "on" else "off")
  }

  /** Each field is what its variable says, or its default. */
  ghost predicate IsFrom(env: Env, c: Config) {
    && IpFrom(env(Ip), Ipv4(127, 0, 0, 5), c.loopbackIp) && IpFrom(env(LocalIp), Ipv4(127, 0, 0, 2), c.digLocalIp)
    && PortFrom(env(DnsPort), 53, c.dnsPort) && PortFrom(env(HttpPort), 80, c.httpPort)
    && PortFrom(env(HttpFallbackPort), 8053, c.httpFallbackPort) && PortFrom(env(LocalPort), 80, c.digLocalPort)
    && TldFrom(env(TldKey), c.tld) && TtlFrom(env(Ttl), c.dnsTtlSecs) && UrlFrom(env(NodeUrl), c.nodeUrl)
    && ToggleFrom(env(SecureUpstream), c.secureUpstream)
  }

  lemma IpIsFrom(env: Env, key: Key, otherwise: Ipv4, ip: Ipv4)
    ensures ReadIp(env, key, otherwise) == Ok(ip) <==> IpFrom(env(key), otherwise, ip)
  {
    if env(key).Some? {
      IpIsExact(Trim(env(key).value), ip);
    }
  }

  lemma PortIsFrom(env: Env, key: Key, otherwise: u16, port: u16)
    ensures ReadPort(env, key, otherwise) == Ok(port) <==> PortFrom(env(key), otherwise, port)
  {
    if env(key).Some? {
      Decimal.ParsesSpelled(Trim(env(key).value), port, 0xFFFF);
    }
  }

  lemma TtlIsFrom(env: Env, ttl: u32)
    ensures ReadTtl(env) == Ok(ttl) <==> TtlFrom(env(Ttl), ttl)
  {
    if env(Ttl).Some? {
      Decimal.ParsesSpelled(Trim(env(Ttl).value), ttl, 0xFFFF_FFFF);
    }
  }

  lemma ToggleIsFrom(env: Env, on: bool)
    ensures ReadToggle(env) == Ok(on) <==> ToggleFrom(env(SecureUpstream), on)
  {
    assert Lower("on") == "on" && Lower("off") == "off";
  }

  lemma TldIsFrom(env: Env, tld: string)
    ensures ReadTld(env) == tld <==> TldFrom(env(TldKey), tld)
  {
  }

  lemma UrlIsFrom(env: Env, url: Option<string>)
    ensures ResolveNodeOverride(None, env(NodeUrl), None) == url <==> UrlFrom(env(NodeUrl), url)
  {
  }

  lemma ReadsExactly(env: Env, c: Config)
    ensures ReadAll(env) == Ok(c) <==> IsFrom(env, c)
  {
    IpIsFrom(env, Ip, DEFAULT.loopbackIp, c.loopbackIp);
    IpIsFrom(env, LocalIp, DEFAULT.digLocalIp, c.digLocalIp);
    PortIsFrom(env, DnsPort, DEFAULT.dnsPort, c.dnsPort);
    PortIsFrom(env, HttpPort, DEFAULT.httpPort, c.httpPort);
    PortIsFrom(env, HttpFallbackPort, DEFAULT.httpFallbackPort, c.httpFallbackPort);
    PortIsFrom(env, LocalPort, DEFAULT.digLocalPort, c.digLocalPort);
    TtlIsFrom(env, c.dnsTtlSecs);
    ToggleIsFrom(env, c.secureUpstream);
    TldIsFrom(env, c.tld);
    UrlIsFrom(env, c.nodeUrl);
  }

  /**
   What every environment loads to: a configuration exactly when each of its fields is what its
   variable says, or its default, and it is valid; any other environment is refused.
   */
  lemma LoadsExactly(env: Env, c: Config)
    ensures Loaded(env) == Ok(c) <==> IsFrom(env, c) && IsValid(c)
  {
    ReadsExactly(env, c);
  }

  /** The override comes from the first source that is not blank: flag, environment, file. */
  lemma OverrideOrder(flag: Option<string>, env: Option<string>, file: Option<string>, url: string)
    ensures UrlFrom(flag, Some(url)) ==> ResolveNodeOverride(flag, env, file) == Some(url)
    ensures UrlFrom(flag, None) && UrlFrom(env, Some(url)) ==> ResolveNodeOverride(flag, env, file) == Some(url)
    ensures UrlFrom(flag, None) && UrlFrom(env, None) ==>
              forall r :: ResolveNodeOverride(flag, env, file) == r <==> UrlFrom(file, r)
  {
  }
}
