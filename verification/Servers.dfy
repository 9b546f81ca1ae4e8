/** Remote servers: their ids, and which of them are asked about a domain. */
module Servers {
  import opened Bytes
  import opened Strings

  datatype Server = Server(ip: string, port: int, kind: string, whitelist: set<string>, blacklist: set<string>,
                           areas: seq<string>)

  // ----- Server ids and refresh keys -----

  /** `ireplace_all_copy(ip, ".", "_")`. */
  function Underscored(ip: string): (r: string)
    ensures |r| == |ip|
  {
    seq(|ip|, i requires 0 <= i < |ip| => if ip[i] == '.' then '_' else ip[i])
  }

  /** `to_string` of an int. */
  function SignedDecimal(n: int): string {
    if n < 0 then "-" + Decimal(-n) else Decimal(n)
  }

  function ServerId(ip: string, port: int): (id: string)
    ensures id != ""
  {
    Underscored(ip) + "_" + SignedDecimal(port)
  }

  function IdOf(server: Server): string {
    ServerId(server.ip, server.port)
  }

  /** The single-flight key of a refresh. */
  function RefreshKey(domain: string, ip: string, port: int): (key: string)
    ensures key != ""
  {
    domain + "/" + ServerId(ip, port)
  }

  /** An address text that its server id determines. */
  predicate PlainIp(ip: string) {
    '_' !in ip && '/' !in ip
  }

  lemma SameSuffix(a: string, b: string, c: string, d: string, sep: char)
    requires sep !in b && sep !in d && a + [sep] + b == c + [sep] + d
    ensures a == c && b == d
  {
    var whole := a + [sep] + b;
    assert whole[|a|] == sep && whole[|c|] == sep;
    assert forall i :: |a| < i < |whole| ==> whole[i] == b[i - |a| - 1];
    assert forall i :: |c| < i < |whole| ==> whole[i] == d[i - |c| - 1];
    assert |a| == |c|;
    assert a == whole[..|a|] && c == whole[..|c|];
    assert b == whole[|a| + 1..] && d == whole[|c| + 1..];
  }

  lemma UnderscoredInjective(a: string, b: string)
    requires PlainIp(a) && PlainIp(b) && Underscored(a) == Underscored(b)
    ensures a == b
  {
    forall i | 0 <= i < |a|
      ensures a[i] == b[i]
    {
      assert a[i] in a && b[i] in b && Underscored(a)[i] == Underscored(b)[i];
    }
  }

  lemma SignedDecimalInjective(m: int, n: int)
    ensures SignedDecimal(m) == SignedDecimal(n) ==> m == n
    ensures forall c :: c in SignedDecimal(m) ==> c == '-' || IsDigit(c)
  {
    DecimalRoundTrip(if m < 0 then -m else m);
    DecimalRoundTrip(if n < 0 then -n else n);
    assert m < 0 ==> SignedDecimal(m)[0] == '-' && SignedDecimal(m)[1..] == Decimal(-m);
    assert n < 0 ==> SignedDecimal(n)[0] == '-' && SignedDecimal(n)[1..] == Decimal(-n);
  }

  /** Two servers share an id exactly when they share the port and the address text up to dots and underscores. */
  lemma ServerIdIff(ip1: string, port1: int, ip2: string, port2: int)
    ensures ServerId(ip1, port1) == ServerId(ip2, port2) <==> port1 == port2 && Underscored(ip1) == Underscored(ip2)
  {
    hide SignedDecimal, Underscored;
    if ServerId(ip1, port1) == ServerId(ip2, port2) {
      SignedDecimalInjective(port1, port2);
      SignedDecimalInjective(port2, port1);
      SameSuffix(Underscored(ip1), SignedDecimal(port1), Underscored(ip2), SignedDecimal(port2), '_');
    }
  }

  /** Whatever the inputs, this is exactly when two refreshes share a key. */
  lemma RefreshKeyIff(d1: string, ip1: string, port1: int, d2: string, ip2: string, port2: int)
    ensures RefreshKey(d1, ip1, port1) == RefreshKey(d2, ip2, port2) <==>
            port1 == port2 && d1 + "/" + Underscored(ip1) == d2 + "/" + Underscored(ip2)
  {
    hide SignedDecimal, Underscored;
    KeyParts(d1, ip1, port1);
    KeyParts(d2, ip2, port2);
    if RefreshKey(d1, ip1, port1) == RefreshKey(d2, ip2, port2) {
      SignedDecimalInjective(port1, port2);
      SignedDecimalInjective(port2, port1);
      SameSuffix(d1 + "/" + Underscored(ip1), SignedDecimal(port1),
                 d2 + "/" + Underscored(ip2), SignedDecimal(port2), '_');
    }
  }

  lemma KeyParts(d: string, ip: string, port: int)
    ensures RefreshKey(d, ip, port) == d + "/" + Underscored(ip) + ['_'] + SignedDecimal(port)
  {
    hide SignedDecimal, Underscored;
    var u, n := Underscored(ip), SignedDecimal(port);
    assert d + "/" + (u + "_" + n) == d + "/" + u + ['_'] + n;
  }

  /** For one domain, the keys tell servers apart exactly as well as their ids do. */
  lemma SameDomainKeyIff(d: string, ip1: string, port1: int, ip2: string, port2: int)
    ensures RefreshKey(d, ip1, port1) == RefreshKey(d, ip2, port2) <==>
            port1 == port2 && Underscored(ip1) == Underscored(ip2)
  {
    hide Underscored;
    RefreshKeyIff(d, ip1, port1, d, ip2, port2);
    var u1, u2 := Underscored(ip1), Underscored(ip2);
    assert u1 == (d + "/" + u1)[|d| + 1..] && u2 == (d + "/" + u2)[|d| + 1..];
  }

  /** Without a slash in the addresses, two refreshes share a key exactly when they share domain and server id. */
  lemma SlashFreeKeyIff(d1: string, ip1: string, port1: int, d2: string, ip2: string, port2: int)
    requires '/' !in ip1 && '/' !in ip2
    ensures RefreshKey(d1, ip1, port1) == RefreshKey(d2, ip2, port2) <==>
            d1 == d2 && ServerId(ip1, port1) == ServerId(ip2, port2)
  {
    if RefreshKey(d1, ip1, port1) == RefreshKey(d2, ip2, port2) {
      IdHasNoSlash(ip1, port1);
      IdHasNoSlash(ip2, port2);
      SameSuffix(d1, ServerId(ip1, port1), d2, ServerId(ip2, port2), '/');
    }
  }

  /** With neither slash nor underscore in the addresses, they must also share address and port. */
  lemma RefreshKeyInjective(d1: string, ip1: string, port1: int, d2: string, ip2: string, port2: int)
    requires PlainIp(ip1) && PlainIp(ip2)
    ensures RefreshKey(d1, ip1, port1) == RefreshKey(d2, ip2, port2) <==> d1 == d2 && ip1 == ip2 && port1 == port2
  {
    hide RefreshKey, ServerId;
    SlashFreeKeyIff(d1, ip1, port1, d2, ip2, port2);
    ServerIdIff(ip1, port1, ip2, port2);
    if Underscored(ip1) == Underscored(ip2) {
      UnderscoredInjective(ip1, ip2);
    }
  }

  lemma IdHasNoSlash(ip: string, port: int)
    requires '/' !in ip
    ensures '/' !in ServerId(ip, port)
  {
    SignedDecimalInjective(port, port);
    assert forall i :: 0 <= i < |ip| ==> Underscored(ip)[i] != '/';
  }

  /** Different refreshes that share a key: an underscore for a dot, and a slash that moves into the domain. */
  lemma RefreshKeyCollisions(port: int)
    ensures RefreshKey("d", "1.2", port) == RefreshKey("d", "1_2", port)
    ensures RefreshKey("a", "b/c", port) == RefreshKey("a/b", "c", port)
  {
    hide SignedDecimal;
    assert Underscored("1.2") == "1_2" == Underscored("1_2");
    var tail := "_" + SignedDecimal(port);
    assert Underscored("b/c") == "b/c" && Underscored("c") == "c";
    assert "a" + "/" + ("b/c" + "_" + SignedDecimal(port)) == "a/b/c" + tail;
    assert "a/b" + "/" + ("c" + "_" + SignedDecimal(port)) == "a/b/c" + tail;
  }

  /** Dots become underscores and the port follows in decimal. */
  lemma ServerIdOf()
    ensures ServerId("1.2", 53) == "1_2_53" && ServerId("h", -7) == "h_-7" && ServerId("h", 0) == "h_0"
    ensures RefreshKey("d", "1.2", 53) == "d/1_2_53"
  {
    assert Decimal(5) == "5" && Decimal(53) == "5" + "3" && Decimal(7) == "7";
    assert Underscored("1.2") == "1_2" && Underscored("h") == "h";
  }

  // ----- Top-level labels -----

  /** `find_last_of('.')`. */
  function LastDot(s: string): (r: Option<nat>)
    ensures r.Some? ==> r.value < |s| && s[r.value] == '.' && '.' !in s[r.value + 1..]
    ensures r.None? ==> '.' !in s
  {
    if s == "" then None
    else if s[|s| - 1] == '.' then Some(|s| - 1)
    else
      var r := LastDot(s[..|s| - 1]);
      assert s == s[..|s| - 1] + [s[|s| - 1]];
      assert r.Some? ==> s[r.value + 1..] == s[..|s| - 1][r.value + 1..] + [s[|s| - 1]];
      r
  }

  function UpperChar(c: char): char {
    if 'a' <= c <= 'z' then (c as int - 'a' as int + 'A' as int) as char else c
  }

  function Upper(s: string): string {
    seq(|s|, i requires 0 <= i < |s| => UpperChar(s[i]))
  }

  /** `getFIDomain`: the last label in upper case, empty without a dot. */
  function LastLabel(domain: string): string {
    match LastDot(domain)
    case None => ""
    case Some(p) => Upper(domain[p + 1..])
  }

  /** `removeFIDomain`. */
  function WithoutLastLabel(domain: string): string {
    match LastDot(domain)
    case None => domain
    case Some(p) => domain[..p]
  }

  /** The text around the last dot, and a text without one. */
  lemma LabelsAroundLastDot(front: string, last: string)
    requires '.' !in last
    ensures LastLabel(front + "." + last) == Upper(last) && WithoutLastLabel(front + "." + last) == front
    ensures LastLabel(last) == "" && WithoutLastLabel(last) == last
  {
    var domain := front + "." + last;
    assert domain[|front|] == '.';
    forall k | |front| < k < |domain|
      ensures domain[k] != '.'
    {
      assert domain[k] == last[k - |front| - 1];
    }
    NoDotBehind(domain);
    NoDotBehind(last);
    assert domain[..|front|] == front && domain[|front| + 1..] == last;
  }

  /** The dot found is one behind which there is none. */
  lemma NoDotBehind(s: string)
    ensures forall k :: 0 <= k < |s| && s[k] == '.' ==> LastDot(s).Some? && k <= LastDot(s).value
    ensures '.' !in s ==> LastDot(s).None?
  {
    var r := LastDot(s);
    forall k | 0 <= k < |s| && s[k] == '.'
      ensures r.Some? && k <= r.value
    {
      assert '.' in s;
    }
  }

  /** Letters are upper-cased one by one; nothing else changes. */
  lemma UpperIs(s: string, i: nat)
    requires i < |s|
    ensures |Upper(s)| == |s|
    ensures Upper(s)[i] as int == if 97 <= s[i] as int <= 122 then s[i] as int - 32 else s[i] as int
  {
  }

  /** A name under `lan` or `arpa`, in any case, is asked only at servers for the LAN; others are asked everywhere. */
  lemma SkippedIff(front: string, last: string, server: Server)
    requires '.' !in last
    ensures Skipped(front + "." + last, server) <==>
            (Upper(last) == "LAN" || Upper(last) == "ARPA") && "LAN" !in server.areas
    ensures !Skipped(last, server)
  {
    LabelsAroundLastDot(front, last);
  }

  // ----- Selection -----

  predicate Skipped(domain: string, server: Server) {
    (LastLabel(domain) == "LAN" || LastLabel(domain) == "ARPA") && "LAN" !in server.areas
  }

  /** One whitelist entry admits the domain; `matches` is the regular-expression test. */
  predicate Admits(matches: (string, string) -> bool, domain: string, entry: string) {
    domain == entry || Find(entry, "." + domain, 0).Some? || matches(domain, entry)
  }

  /** An entry admits the domain itself, whatever it matches, and every domain whose dotted form stands in it. */
  lemma AdmitsIff(matches: (string, string) -> bool, domain: string, entry: string)
    ensures Admits(matches, domain, entry) <==>
            domain == entry || matches(domain, entry) || exists a, b :: entry == a + "." + domain + b
  {
    DottedIff(domain, entry);
  }

  lemma DottedIff(domain: string, entry: string)
    ensures Find(entry, "." + domain, 0).Some? <==> exists a, b :: entry == a + "." + domain + b
  {
    var dotted := "." + domain;
    var r := Find(entry, dotted, 0);
    if r.Some? {
      SplitAround(entry, dotted, r.value);
      var a, b := entry[..r.value], entry[r.value + |dotted|..];
      assert a + dotted + b == a + "." + domain + b;
    } else {
      forall a, b
        ensures entry != a + "." + domain + b
      {
        assert a + dotted + b == a + "." + domain + b;
        assert (a + dotted + b)[|a|..|a| + |dotted|] == dotted;
        assert !Occurs(entry, dotted, |a|);
      }
    }
  }

  lemma SplitAround(s: string, part: string, p: nat)
    requires Occurs(s, part, p)
    ensures s == s[..p] + part + s[p + |part|..]
  {
  }

  predicate Whitelisted(matches: (string, string) -> bool, domain: string, server: Server) {
    exists entry :: entry in server.whitelist && Admits(matches, domain, entry)
  }

  /** The servers that are neither skipped nor blacklisted, in order. */
  function OpenServers(domain: string, servers: seq<Server>): seq<Server> {
    if servers == [] then []
    else
      var last := servers[|servers| - 1];
      OpenServers(domain, servers[..|servers| - 1]) +
      if Skipped(domain, last) || domain in last.blacklist then [] else [last]
  }

  /** The position of the first server that is not skipped and whitelists the domain. */
  function FirstWhitelisted(matches: (string, string) -> bool, domain: string, servers: seq<Server>, from: nat):
    (r: nat)
    requires from <= |servers|
    ensures from <= r <= |servers|
    decreases |servers| - from
  {
    if from == |servers| || (!Skipped(domain, servers[from]) && Whitelisted(matches, domain, servers[from])) then from
    else FirstWhitelisted(matches, domain, servers, from + 1)
  }

  /** What `select_servers` returns: the first whitelisting server alone, or all open servers. */
  function Selected(matches: (string, string) -> bool, domain: string, servers: seq<Server>): seq<Server> {
    var w := FirstWhitelisted(matches, domain, servers, 0);
    if w < |servers| then [servers[w]] else OpenServers(domain, servers)
  }

  /** The whitelist test, entry by entry in some order. */
  method InWhitelist(matches: (string, string) -> bool, domain: string, server: Server) returns (r: bool)
    ensures r == Whitelisted(matches, domain, server)
  {
    var rest := server.whitelist;
    while rest != {}
      invariant rest <= server.whitelist
      invariant forall entry :: entry in server.whitelist - rest ==> !Admits(matches, domain, entry)
      decreases rest
    {
      var entry :| entry in rest;
      if Admits(matches, domain, entry) {
        return true;
      }
      rest := rest - {entry};
    }
    return false;
  }

  method SelectServers(matches: (string, string) -> bool, domain: string, servers: seq<Server>)
    returns (result: seq<Server>)
    ensures result == Selected(matches, domain, servers)
  {
    hide Whitelisted, LastLabel;
    result := [];
    for i := 0 to |servers|
      invariant FirstWhitelisted(matches, domain, servers, 0) == FirstWhitelisted(matches, domain, servers, i)
      invariant result == OpenServers(domain, servers[..i])
    {
      var server := servers[i];
      assert servers[..i + 1][..i] == servers[..i];
      var skip := Skipped(domain, server);
      if !skip {
        var white := InWhitelist(matches, domain, server);
        if white {
          result := [];
          result := result + [server];
          return;
        }
        if domain !in server.blacklist {
          result := result + [server];
        }
      }
    }
    assert servers[..|servers|] == servers;
  }

  lemma IdsIdentify(servers: seq<Server>, a: Server, b: Server)
    requires DistinctIds(servers) && a in servers && b in servers && IdOf(a) == IdOf(b)
    ensures a == b
  {
    hide ServerId;
    var i :| 0 <= i < |servers| && servers[i] == a;
    var j :| 0 <= j < |servers| && servers[j] == b;
  }

  ghost predicate DistinctIds(servers: seq<Server>) {
    forall i, j :: 0 <= i < j < |servers| ==> IdOf(servers[i]) != IdOf(servers[j])
  }

  lemma {:induction false} OpenServersKept(domain: string, servers: seq<Server>)
    ensures forall s :: s in OpenServers(domain, servers) <==>
              s in servers && !Skipped(domain, s) && domain !in s.blacklist
    ensures DistinctIds(servers) ==> DistinctIds(OpenServers(domain, servers))
    ensures |OpenServers(domain, servers)| <= |servers|
  {
    if servers != [] {
      hide Skipped, ServerId;
      var front, last := servers[..|servers| - 1], servers[|servers| - 1];
      assert servers == front + [last];
      OpenServersKept(domain, front);
      if DistinctIds(servers) {
        assert forall s :: s in front ==> IdOf(s) != IdOf(last);
      }
    }
  }

  /** Selected servers are configured ones that are not skipped; their ids stay distinct. */
  lemma SelectedAreConfigured(matches: (string, string) -> bool, domain: string, servers: seq<Server>)
    ensures forall s :: s in Selected(matches, domain, servers) ==> s in servers && !Skipped(domain, s)
    ensures DistinctIds(servers) ==> DistinctIds(Selected(matches, domain, servers))
    ensures |Selected(matches, domain, servers)| <= |servers|
    ensures (exists s :: s in servers && !Skipped(domain, s) && Whitelisted(matches, domain, s)) <==>
            FirstWhitelisted(matches, domain, servers, 0) < |servers|
  {
    hide Skipped, Whitelisted;
    OpenServersKept(domain, servers);
    FirstWhitelistedIs(matches, domain, servers, 0);
  }

  lemma {:induction false} FirstWhitelistedIs(matches: (string, string) -> bool, domain: string, servers: seq<Server>,
                                              from: nat)
    requires from <= |servers|
    ensures var r := FirstWhitelisted(matches, domain, servers, from);
            (r < |servers| ==> !Skipped(domain, servers[r]) && Whitelisted(matches, domain, servers[r])) &&
            forall i :: from <= i < r ==> Skipped(domain, servers[i]) || !Whitelisted(matches, domain, servers[i])
    decreases |servers| - from
  {
    hide Skipped, Whitelisted;
    if from < |servers| {
      FirstWhitelistedIs(matches, domain, servers, from + 1);
    }
  }
}
