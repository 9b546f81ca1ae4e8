/** Resolving a domain from its stored answers: flatten, sort, choose one server, drop duplicates. */
module Resolution {
  import opened Servers
  import opened RecordStore

  /** `is_area_ip`, fixed during one call. */
  type AreaTest = (seq<string>, nat) -> bool

  datatype IpRecord = IpRecord(ip: nat, matchArea: bool, forbid: bool, expire: bool, expireTime: nat, server: string,
                               order: nat)

  // ----- The order of the sort -----

  /** `dns_ip_record::compare`. */
  predicate Compare(a: IpRecord, b: IpRecord) {
    if a.matchArea != b.matchArea then a.matchArea
    else if a.forbid != b.forbid then b.forbid
    else a.order < b.order
  }

  /** `compare` is a strict weak order: irreflexive, transitive, and so is being unordered. */
  lemma CompareIsStrictWeakOrder(a: IpRecord, b: IpRecord, c: IpRecord)
    ensures !Compare(a, a) && (Compare(a, b) ==> !Compare(b, a))
    ensures Compare(a, b) && Compare(b, c) ==> Compare(a, c)
    ensures !Compare(a, b) && !Compare(b, a) && !Compare(b, c) && !Compare(c, b) ==> !Compare(a, c) && !Compare(c, a)
    ensures !Compare(a, b) && !Compare(b, a) <==>
            a.matchArea == b.matchArea && a.forbid == b.forbid && a.order == b.order
  {
  }

  /** Matching before not matching, then allowed before forbidden, then by 8-bit position. */
  function Rank(r: IpRecord): nat {
    (if r.matchArea then 0 else 512) + (if r.forbid then 256 else 0) + r.order
  }

  lemma CompareIsRank(a: IpRecord, b: IpRecord)
    requires a.order < 256 && b.order < 256
    ensures Compare(a, b) <==> Rank(a) < Rank(b)
  {
  }

  predicate IsSorted(s: seq<IpRecord>) {
    forall i, j :: 0 <= i < j < |s| ==> !Compare(s[j], s[i])
  }

  /** What an unstable sort may return. */
  predicate IsSortOf(s: seq<IpRecord>, flat: seq<IpRecord>) {
    IsSorted(s) && multiset(s) == multiset(flat)
  }

  /** Callers know no more than that some sorted permutation comes back. */
  method Sort(flat: seq<IpRecord>) returns (s: seq<IpRecord>)
    ensures IsSortOf(s, flat)
  {
    s := [];
    for i := 0 to |flat|
      invariant IsSortOf(s, flat[..i])
    {
      s := Insert(s, flat[i]);
      assert flat[..i + 1] == flat[..i] + [flat[i]];
    }
    assert flat[..|flat|] == flat;
  }

  method Insert(s: seq<IpRecord>, x: IpRecord) returns (r: seq<IpRecord>)
    requires IsSorted(s)
    ensures IsSorted(r) && multiset(r) == multiset(s) + multiset{x}
  {
    var k: nat := |s|;
    while k > 0 && Compare(x, s[k - 1])
      invariant k <= |s| && forall j :: k <= j < |s| ==> Compare(x, s[j])
    {
      k := k - 1;
    }
    InsertSorted(s, k, x);
    r := s[..k] + [x] + s[k..];
    assert s == s[..k] + s[k..];
  }

  lemma InsertSorted(s: seq<IpRecord>, k: nat, x: IpRecord)
    requires IsSorted(s) && k <= |s| && (k > 0 ==> !Compare(x, s[k - 1]))
    requires forall j :: k <= j < |s| ==> Compare(x, s[j])
    ensures IsSorted(s[..k] + [x] + s[k..])
  {
    var r := s[..k] + [x] + s[k..];
    forall i, j | 0 <= i < j < |r|
      ensures !Compare(r[j], r[i])
    {
      var from, to := if i < k then i else i - 1, if j < k then j else j - 1;
      if i != k && j != k {
        assert r[i] == s[from] && r[j] == s[to];
      }
    }
  }

  /** Callers know no more than that some permutation comes back; `seed` drives the swaps. */
  method Shuffle(ips: seq<nat>, seed: nat) returns (r: seq<nat>)
    ensures multiset(r) == multiset(ips)
  {
    r := ips;
    for i := 0 to |ips|
      invariant |r| == |ips| && multiset(r) == multiset(ips)
    {
      var j := (seed / (i + 1)) % (i + 1);
      r := r[i := r[j]][j := r[i]];
    }
  }

  // ----- Flattening -----

  function ItemOf(ip: nat, server: Server, order: nat, answer: Answer, area: AreaTest, now: nat): IpRecord {
    IpRecord(ip, area(server.areas, ip), false, answer.expire < now, answer.expire, IdOf(server), order)
  }

  function ItemsOf(server: Server, order: nat, answer: Answer, area: AreaTest, now: nat): seq<IpRecord> {
    seq(|answer.ips|, i requires 0 <= i < |answer.ips| => ItemOf(answer.ips[i], server, order, answer, area, now))
  }

  /** The records of all selected servers, each tagged with its server's position; the position has 8 bits. */
  function Flatten(servers: seq<Server>, records: map<string, Answer>, area: AreaTest, now: nat): seq<IpRecord> {
    if servers == [] then []
    else
      var last := servers[|servers| - 1];
      Flatten(servers[..|servers| - 1], records, area, now) +
      if IdOf(last) in records then ItemsOf(last, |servers| % 256, records[IdOf(last)], area, now) else []
  }

  // ----- Choosing -----

  datatype Pick = Pick(server: string, ips: seq<nat>, trusted: nat, total: nat)

  /** One turn of the choosing loop: only records of the first matching server are taken, each address once. */
  function PickStep(p: Pick, item: IpRecord): Pick {
    if item.matchArea && !item.forbid then
      if p.server != "" && item.server != p.server then p
      else if item.ip in p.ips then p
      else Pick(item.server, p.ips + [item.ip], p.trusted + 1, p.total + 1)
    else p.(total := p.total + 1)
  }

  function PickAll(s: seq<IpRecord>): Pick {
    if s == [] then Pick("", [], 0, 0) else PickStep(PickAll(s[..|s| - 1]), s[|s| - 1])
  }

  /** The addresses of all records, each once. */
  function FillAll(s: seq<IpRecord>): seq<nat> {
    if s == [] then []
    else
      var ips := FillAll(s[..|s| - 1]);
      if s[|s| - 1].ip in ips then ips else ips + [s[|s| - 1].ip]
  }

  /** What resolving delivers; `ips` before they are shuffled. */
  datatype Summary = Summary(ips: seq<nat>, server: string, expireTime: nat, expire: bool, matchArea: bool,
                             trusted: nat, total: nat)

  function Summarize(s: seq<IpRecord>): Summary {
    var p := PickAll(s);
    var ips := if p.ips == [] then FillAll(s) else p.ips;
    if s == [] then Summary(ips, "", 0, false, false, p.trusted, p.total)
    else Summary(ips, s[0].server, s[0].expireTime, s[0].expire, s[0].matchArea, p.trusted, p.total)
  }

  datatype DnsRecord = DnsRecord(domain: string, servers: set<string>, summary: Summary)

  /** `transform`, with the servers already selected. */
  method Transform(domain: string, servers: seq<Server>, records: map<string, Answer>, area: AreaTest, now: nat,
                   seed: nat)
    returns (record: DnsRecord, ghost sorted: seq<IpRecord>)
    ensures IsSortOf(sorted, Flatten(servers, records, area, now))
    ensures record.domain == domain && record.summary == Summarize(sorted).(ips := record.summary.ips)
    ensures multiset(record.summary.ips) == multiset(Summarize(sorted).ips)
    ensures record.servers == set item | item in Flatten(servers, records, area, now) :: item.server
  {
    var flat, contributing := FlattenAll(servers, records, area, now);
    var s := Sort(flat);
    var p := Choose(s);
    var ips := p.ips;
    if ips == [] {
      ips := Fill(s);
    }
    ips := Shuffle(ips, seed);
    var summary := Summary(ips, "", 0, false, false, p.trusted, p.total);
    if s != [] {
      summary := summary.(matchArea := s[0].matchArea, expireTime := s[0].expireTime, server := s[0].server,
                          expire := s[0].expire);
    }
    return DnsRecord(domain, contributing, summary), s;
  }

  method FlattenAll(servers: seq<Server>, records: map<string, Answer>, area: AreaTest, now: nat)
    returns (flat: seq<IpRecord>, contributing: set<string>)
    ensures flat == Flatten(servers, records, area, now)
    ensures contributing == set item | item in flat :: item.server
  {
    hide ServerId;
    flat, contributing := [], {};
    var order: nat := 0;
    for i := 0 to |servers|
      invariant order == i % 256 && flat == Flatten(servers[..i], records, area, now)
      invariant contributing == set item | item in flat :: item.server
    {
      assert servers[..i + 1][..i] == servers[..i];
      var server := servers[i];
      order := (order + 1) % 256;
      if IdOf(server) in records {
        var answer := records[IdOf(server)];
        ghost var items, before := ItemsOf(server, order, answer, area, now), flat;
        for k := 0 to |answer.ips|
          invariant flat == before + items[..k]
          invariant contributing == set item | item in flat :: item.server
        {
          flat := flat + [ItemOf(answer.ips[k], server, order, answer, area, now)];
          contributing := contributing + {IdOf(server)};
        }
        assert items[..|answer.ips|] == items;
      }
    }
    assert servers[..|servers|] == servers;
  }

  method Choose(s: seq<IpRecord>) returns (p: Pick)
    ensures p == PickAll(s)
  {
    var server, ips, trusted, total := "", [], 0, 0;
    for i := 0 to |s|
      invariant Pick(server, ips, trusted, total) == PickAll(s[..i])
    {
      assert s[..i + 1][..i] == s[..i];
      var item := s[i];
      if item.matchArea && !item.forbid {
        if server != "" && item.server != server {
          continue;
        }
        if item.ip in ips {
          continue;
        }
        trusted := trusted + 1;
        ips := ips + [item.ip];
        server := item.server;
      }
      total := total + 1;
    }
    assert s[..|s|] == s;
    return Pick(server, ips, trusted, total);
  }

  method Fill(s: seq<IpRecord>) returns (ips: seq<nat>)
    ensures ips == FillAll(s)
  {
    ips := [];
    for i := 0 to |s|
      invariant ips == FillAll(s[..i])
    {
      assert s[..i + 1][..i] == s[..i];
      if s[i].ip in ips {
        continue;
      }
      ips := ips + [s[i].ip];
    }
    assert s[..|s|] == s;
  }
}
