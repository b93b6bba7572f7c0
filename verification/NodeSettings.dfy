/**
 The settings of topology nodes, as far as a start request checks them: the connection settings of
 remote nodes, and the port or endpoint that a node claims for itself. Texts are UTF-8 bytes.
 */
module NodeSettings {
  import opened Wrappers
  import opened Blanks
  import opened Ascii
  import opened Decimal

  /** A setting with the text it prints as; Whole stands for every number that is an integer. */
  datatype Setting =
    | Nil
    | Text(text: string)
    | Whole(value: int, text: string)
    | Other(text: string)

  type Config = map<string, Setting>

  datatype Issue =
    | UnsupportedProtocol(name: string)
    | UnsupportedRole(name: string)
    | HostRequired
    | HostHasScheme
    | NotAnInteger(key: string)
    | NotPositive(key: string)
    | OutOfRange(key: string)

  const NO_VALUE := "<nil>"

  function TextOf(config: Config, key: string): string {
    if key !in config || config[key].Nil? then "" else TrimSpace(config[key].text)
  }

  function TextOr(config: Config, key: string, fallback: string): string {
    var text := TextOf(config, key);
    if text == "" || text == NO_VALUE then fallback else text
  }

  /** A decimal numeral with an optional sign, as far as it fits 64 bits. */
  function ParseInt(s: string): Option<int> {
    var digits := if s != "" && (s[0] == '+' || s[0] == '-') then s[1..] else s;
    if !IsNumeral(digits) then None
    else
      var n: int := Value(digits);
      var n := if s[0] == '-' then -n else n;
      if -MAX_INT - 1 <= n <= MAX_INT then Some(n) else None
  }

  function IntOf(config: Config, key: string, fallback: int): Option<int> {
    if key !in config then Some(fallback)
    else
      match config[key]
      case Whole(n, _) => Some(n)
      case Text(text) => ParseInt(TrimSpace(text))
      case _ => None
  }

  predicate HasScheme(host: string) {
    exists i :: 0 <= i <= |host| && "://" <= host[i..]
  }

  function Host(config: Config): string {
    TextOf(config, "host")
  }

  function Port(config: Config): Option<int> {
    IntOf(config, "port", 3001)
  }

  function Role(config: Config): string {
    TextOr(config, "role", "client")
  }

  predicate Within(n: Option<int>, low: int, high: int) {
    n.Some? && low <= n.value <= high
  }

  /** Settings with which a remote node can be started. */
  predicate IsUsable(config: Config) {
    && TextOr(config, "protocol", "raw-tcp") == "raw-tcp"
    && (Role(config) == "client" || Role(config) == "server")
    && Host(config) != "" && !HasScheme(Host(config))
    && Within(Port(config), 1, 65535)
    && Within(IntOf(config, "connectTimeoutMs", 3000), 100, 60000)
    && Within(IntOf(config, "writeTimeoutMs", 3000), 100, 60000)
    && Within(IntOf(config, "reconnectIntervalMs", 1000), 100, 60000)
    && Within(IntOf(config, "readBufKB", 32), 1, 1024)
  }

  function NumberIssues(key: string, n: Option<int>, low: int, high: int): (r: seq<Issue>)
    requires low >= 1
    ensures r == [] <==> Within(n, low, high)
  {
    if n.None? then [NotAnInteger(key)]
    else if n.value <= 0 then [NotPositive(key)]
    else if n.value < low || n.value > high then [OutOfRange(key)]
    else []
  }

  function PortIssues(n: Option<int>): (r: seq<Issue>)
    ensures r == [] <==> Within(n, 1, 65535)
  {
    if n.None? then [NotAnInteger("port")]
    else if n.value < 1 || n.value > 65535 then [OutOfRange("port")]
    else []
  }

  function NameIssues(config: Config): (r: seq<Issue>)
    ensures r == [] <==>
            && TextOr(config, "protocol", "raw-tcp") == "raw-tcp"
            && (Role(config) == "client" || Role(config) == "server")
            && Host(config) != "" && !HasScheme(Host(config))
  {
    var protocol := TextOr(config, "protocol", "raw-tcp");
    (if protocol != "raw-tcp" then [UnsupportedProtocol(protocol)] else [])
    + (if Role(config) != "client" && Role(config) != "server" then [UnsupportedRole(Role(config))] else [])
    + (if Host(config) == "" then [HostRequired] else [])
    + (if HasScheme(Host(config)) then [HostHasScheme] else [])
  }

  /** The issues of a remote node's settings, in the order in which they are found. */
  function RemoteIssues(config: Config): (r: seq<Issue>)
    ensures r == [] <==> IsUsable(config)
  {
    NameIssues(config)
    + PortIssues(Port(config))
    + NumberIssues("connectTimeoutMs", IntOf(config, "connectTimeoutMs", 3000), 100, 60000)
    + NumberIssues("writeTimeoutMs", IntOf(config, "writeTimeoutMs", 3000), 100, 60000)
    + NumberIssues("reconnectIntervalMs", IntOf(config, "reconnectIntervalMs", 1000), 100, 60000)
    + NumberIssues("readBufKB", IntOf(config, "readBufKB", 32), 1, 1024)
  }

  // ---------------------------------------------------------------------------------------------
  // Ports and endpoints
  // ---------------------------------------------------------------------------------------------

  datatype ResourceKey = RemoteKey(endpoint: string, role: string) | PortKey(name: string)

  /** Host and port in one text; a host with colons of its own is put in brackets. */
  function Endpoint(host: string, port: nat): string {
    (if ':' in host then "[" + host + "]" else host) + ":" + Render(port)
  }

  /** What a remote node claims: nothing, when it could not be started. */
  function RemoteClaim(config: Config): Option<ResourceKey> {
    if IsUsable(config) then Some(RemoteKey(Endpoint(Lower(Host(config)), Port(config).value), Role(config))) else None
  }

  /** What a serial port node claims: nothing without a port name. */
  function PortClaim(config: Config): Option<ResourceKey> {
    var name := TextOf(config, "portName");
    if name == "" || name == NO_VALUE then None else Some(PortKey(name))
  }

  /** The last colon of the text stands here. */
  predicate LastColon(s: string, i: int) {
    0 <= i < |s| && s[i] == ':' && forall k :: i < k < |s| ==> s[k] != ':'
  }

  lemma DigitsBehindColon(a: string, digits: string)
    requires IsNumeral(digits)
    ensures LastColon(a + ":" + digits, |a|)
    ensures (a + ":" + digits)[..|a|] == a && (a + ":" + digits)[|a| + 1..] == digits
  {
    var s := a + ":" + digits;
    assert forall k :: |a| < k < |s| ==> s[k] == digits[k - |a| - 1];
  }

  /** Text in front of a colon and digits behind it can be told apart. */
  lemma ColonSplits(a: string, m: nat, b: string, n: nat)
    requires a + ":" + Render(m) == b + ":" + Render(n)
    ensures a == b && m == n
  {
    DigitsBehindColon(a, Render(m));
    DigitsBehindColon(b, Render(n));
    assert |a| == |b|;
    ValueOfRender(m);
    ValueOfRender(n);
  }

  /** Two endpoints are the same text only for the same host and port. */
  lemma EndpointsDiffer(host: string, port: nat, other: string, otherPort: nat)
    ensures Endpoint(host, port) == Endpoint(other, otherPort) <==> host == other && port == otherPort
  {
    var a := if ':' in host then "[" + host + "]" else host;
    var b := if ':' in other then "[" + other + "]" else other;
    if Endpoint(host, port) == Endpoint(other, otherPort) {
      ColonSplits(a, port, b, otherPort);
      Unbracketed(host, other);
    }
  }

  lemma Unbracketed(host: string, other: string)
    ensures "[" + host + "]" == "[" + other + "]" ==> host == other
    ensures "[" + host + "]" == other && ':' in host ==> ':' in other
    ensures "[" + other + "]" == host && ':' in other ==> ':' in host
  {
    assert ("[" + host + "]")[1..|host| + 1] == host && ("[" + other + "]")[1..|other| + 1] == other;
  }

  /** Two remote nodes claim the same thing exactly for the same host, whatever its case, port and role. */
  lemma SameRemoteClaimIff(config: Config, other: Config)
    requires IsUsable(config) && IsUsable(other)
    ensures RemoteClaim(config) == RemoteClaim(other) <==>
            && Lower(Host(config)) == Lower(Host(other)) && Port(config) == Port(other)
            && Role(config) == Role(other)
  {
    EndpointsDiffer(Lower(Host(config)), Port(config).value, Lower(Host(other)), Port(other).value);
  }
}
