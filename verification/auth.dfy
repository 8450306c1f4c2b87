/** The authenticator contract (src/auth.rs) and the two authenticators that
    never ask the user anything: the local-origin allowlist and the bypass. */
module Auth {
  import opened Wrappers
  import Text

  /** The tri-state verdict of every authenticator: `Some(true)` accepts,
      `Some(false)` rejects and `None` cancels (this authenticator does not
      apply, the next one is asked). */
  type Decision = Option<bool>

  /** What an exec-mode check hands back: its verdict and the `-c` command
      line, which an authenticator may rewrite. */
  datatype Exec = Exec(decision: Decision, cmd: string)

  // ---------------------------------------------------------------------------
  // Addresses and CIDR prefixes (RFC 4632, section 3.1)

  datatype Family = IPv4 | IPv6

  /** An address as the number its bits spell, most significant bit first. */
  datatype IpAddr = IpAddr(family: Family, bits: nat)

  /** A network given by a base address and a prefix length. */
  datatype Cidr = Cidr(base: IpAddr, prefixLen: nat)

  function Width(f: Family): nat {
    if f == IPv4 then 32 else 128
  }

  predicate ValidAddr(a: IpAddr) {
    a.bits < Pow2(Width(a.family))
  }

  function Pow2(k: nat): (p: nat)
    ensures p >= 1
  {
    if k == 0 then 1 else 2 * Pow2(k - 1)
  }

  /** The leading `len` bits of an address. */
  function Prefix(a: IpAddr, len: nat): int
    requires len <= Width(a.family)
  {
    var unit := Pow2(Width(a.family) - len);
    a.bits / unit
  }

  /** A prefix contains exactly the addresses of its family whose leading
      `prefixLen` bits are its own. */
  predicate Contains(net: Cidr, a: IpAddr) {
    && net.base.family == a.family
    && net.prefixLen <= Width(a.family)
    && Prefix(a, net.prefixLen) == Prefix(net.base, net.prefixLen)
  }

  /** An IPv4 address written `a.b.c.d`. */
  function V4(a: nat, b: nat, c: nat, d: nat): IpAddr
    requires a < 256 && b < 256 && c < 256 && d < 256
  {
    IpAddr(IPv4, ((a * 256 + b) * 256 + c) * 256 + d)
  }

  /** A host route (`/32` or `/128`) contains only its own address. */
  lemma HostRouteContainsOnlyItself(base: IpAddr, a: IpAddr)
    ensures Contains(Cidr(base, Width(base.family)), a) <==> a == base
  {
    if base.family == a.family {
      assert Pow2(0) == 1;
    }
  }

  // ---------------------------------------------------------------------------
  // Local-origin authenticator (src/auth.rs:43-79)

  /** Whether the configured entry parses as a CIDR prefix containing `addr`.
      A malformed entry contains nothing. */
  predicate EntryContains(entry: string, addr: IpAddr, parseCidr: string -> Option<Cidr>) {
    parseCidr(entry).Some? && Contains(parseCidr(entry).value, addr)
  }

  /** The early-return search over `accepted_ips`: the first entry whose
      prefix contains `addr`, skipping entries that do not parse. */
  function FirstMatch(entries: seq<string>, addr: IpAddr, parseCidr: string -> Option<Cidr>): (r: Option<nat>)
    ensures r.Some? ==> r.value < |entries| && EntryContains(entries[r.value], addr, parseCidr)
    ensures r.Some? ==> forall j :: 0 <= j < r.value ==> !EntryContains(entries[j], addr, parseCidr)
    ensures r.None? ==> forall j :: 0 <= j < |entries| ==> !EntryContains(entries[j], addr, parseCidr)
  {
    if |entries| == 0 then None
    else if EntryContains(entries[0], addr, parseCidr) then Some(0)
    else
      match FirstMatch(entries[1..], addr, parseCidr)
      case None => None
      case Some(i) => Some(i + 1)
  }

  /** `LocalIPAuthenticator::is_accepted_login`. `origin` is what `get_from`
      returned; `parseIp` and `parseCidr` stand for `str::parse` into
      `IpAddr` and `IpCidr`. */
  function LocalIpLogin(origin: string, acceptedIps: Option<seq<string>>,
                        parseIp: string -> Option<IpAddr>,
                        parseCidr: string -> Option<Cidr>): (r: Decision)
    ensures r != Some(false)
    ensures parseIp(origin).None? ==> r == None
    ensures r == Some(true) <==>
      && parseIp(origin).Some?
      && acceptedIps.Some?
      && exists i :: 0 <= i < |acceptedIps.value| && EntryContains(acceptedIps.value[i], parseIp(origin).value, parseCidr)
  {
    match parseIp(origin)
    case None => None
    case Some(addr) =>
      if acceptedIps.Some? && FirstMatch(acceptedIps.value, addr, parseCidr).Some? then Some(true)
      else None
  }

  /** `LocalIPAuthenticator::is_accepted_exec`: the login verdict, command untouched. */
  function LocalIpExec(cmd: string, origin: string, acceptedIps: Option<seq<string>>,
                       parseIp: string -> Option<IpAddr>,
                       parseCidr: string -> Option<Cidr>): (r: Exec)
    ensures r.cmd == cmd
    ensures r.decision == LocalIpLogin(origin, acceptedIps, parseIp, parseCidr)
  {
    Exec(LocalIpLogin(origin, acceptedIps, parseIp, parseCidr), cmd)
  }

  /** A malformed entry, wherever it stands, changes nothing about the verdict. */
  lemma MalformedEntryIgnored(origin: string, before: seq<string>, bad: string, after: seq<string>,
                              parseIp: string -> Option<IpAddr>,
                              parseCidr: string -> Option<Cidr>)
    requires parseCidr(bad).None?
    ensures LocalIpLogin(origin, Some(before + [bad] + after), parseIp, parseCidr)
         == LocalIpLogin(origin, Some(before + after), parseIp, parseCidr)
  {
    var with := before + [bad] + after;
    var without := before + after;
    if parseIp(origin).Some? {
      var addr := parseIp(origin).value;
      if i :| 0 <= i < |with| && EntryContains(with[i], addr, parseCidr) {
        var j := if i < |before| then i else i - 1;
        assert without[j] == with[i];
      }
      if j :| 0 <= j < |without| && EntryContains(without[j], addr, parseCidr) {
        var i := if j < |before| then j else j + 1;
        assert with[i] == without[j];
      }
    }
  }

  /** The two example networks: `10.0.0.5` is inside `10.0.0.0/24` and
      outside `192.168.0.0/24`. */
  lemma ExampleNetworks()
    ensures Contains(Cidr(V4(10, 0, 0, 0), 24), V4(10, 0, 0, 5))
    ensures !Contains(Cidr(V4(192, 168, 0, 0), 24), V4(10, 0, 0, 5))
  {
    assert Pow2(8) == 256;
  }

  // ---------------------------------------------------------------------------
  // Bypass authenticator (src/auth.rs:81-106)

  /** `BypassAuthenticator::is_accepted_login`. `home` is the home directory
      if known, `fileExists` answers `Path::exists`, and `sibFromIp` is the
      value of `SIB_FROM_IP` when it is set (and valid Unicode). */
  function BypassLogin(home: Option<string>, fileExists: string -> bool, sibFromIp: Option<string>): (r: Decision)
    ensures r != Some(false)
    ensures r == Some(true) <==>
      (home.Some? && fileExists(Text.JoinPath(home.value, "NoSec"))) || sibFromIp.Some?
  {
    if home.Some? && fileExists(Text.JoinPath(home.value, "NoSec")) then Some(true)
    else if sibFromIp.Some? then Some(true)
    else None
  }

  /** `BypassAuthenticator::is_accepted_exec`: the login verdict, command untouched. */
  function BypassExec(cmd: string, home: Option<string>, fileExists: string -> bool, sibFromIp: Option<string>): (r: Exec)
    ensures r.cmd == cmd
    ensures r.decision == BypassLogin(home, fileExists, sibFromIp)
  {
    Exec(BypassLogin(home, fileExists, sibFromIp), cmd)
  }
}
