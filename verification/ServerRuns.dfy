/** Answering clients from the store over whole runs: every served address can be traced to a remote answer. */
module ServerRuns {
  import opened Bytes
  import opened Sequences
  import opened Servers
  import opened RecordStore
  import opened Resolution
  import opened ResolutionLaws

  // ----- Answering from the cache -----

  /** The configuration that stays fixed during one query. */
  datatype Setup = Setup(servers: seq<Server>, matches: (string, string) -> bool, area: AreaTest)

  ghost predicate SetupFits(c: Setup) {
    |c.servers| <= 255 && DistinctIds(c.servers)
  }

  function SelectedFor(c: Setup, name: string): seq<Server> {
    Selected(c.matches, name, c.servers)
  }

  predicate IsLan(host: string) {
    LastLabel(host) == "LAN"
  }

  /** Some selected server's stored answer has an address for `name`. */
  predicate HasAnswer(c: Setup, forward: Forward, name: string) {
    AnswerIps(SelectedFor(c, name), RecordsOf(forward, name)) != {}
  }

  /** The name whose record is served for `host`: itself, or without its LAN suffix when it has no answer. */
  function NameServed(c: Setup, forward: Forward, host: string): string {
    if !HasAnswer(c, forward, host) && IsLan(host) then WithoutLastLabel(host) else host
  }

  /** The record that second `now` holds for the name served for `host`. */
  ghost predicate Answers(c: Setup, forward: Forward, host: string, now: nat, r: Summary) {
    var name := NameServed(c, forward, host);
    Delivered(r, SelectedFor(c, name), RecordsOf(forward, name), c.area, now)
  }

  /** What a client asking for `host` at second `now` may be told; `localhost` never expires and has no address. */
  ghost predicate Served(c: Setup, forward: Forward, host: string, now: nat, r: Summary) {
    if host == "localhost" then r == Summary([], "st-dns", 0xFFFF_FFFF_FFFF_FFFF, false, false, 0, 0)
    else Answers(c, forward, host, now, r)
  }

  /** `resolve`. */
  method Resolve(c: Setup, forward: Forward, name: string, now: nat, seed: nat) returns (record: DnsRecord)
    requires SetupFits(c)
    ensures Delivered(record.summary, SelectedFor(c, name), RecordsOf(forward, name), c.area, now)
    ensures record.servers == Contributors(SelectedFor(c, name), RecordsOf(forward, name))
    ensures record.domain == name && (record.summary.ips == [] <==> !HasAnswer(c, forward, name))
  {
    hide Delivered, Selected, Flatten, IsSortOf, DistinctIds;
    var chosen := SelectServers(c.matches, name, c.servers);
    SelectedAreConfigured(c.matches, name, c.servers);
    ghost var sorted;
    record, sorted := Transform(name, chosen, RecordsOf(forward, name), c.area, now, seed);
    ResolveDelivers(chosen, RecordsOf(forward, name), c.area, now, sorted);
    ShuffledDelivers(Summarize(sorted), record.summary, chosen, RecordsOf(forward, name), c.area, now);
    EmptyIffNoAnswer(record.summary, chosen, RecordsOf(forward, name), c.area, now);
    ContributorsAre(chosen, RecordsOf(forward, name), c.area, now);
  }

  lemma ShuffledDelivers(r: Summary, shuffled: Summary, servers: seq<Server>, records: map<string, Answer>,
                         area: AreaTest, now: nat)
    requires Delivered(r, servers, records, area, now) && shuffled == r.(ips := shuffled.ips)
    requires multiset(shuffled.ips) == multiset(r.ips)
    ensures Delivered(shuffled, servers, records, area, now)
  {
    SameElements(r.ips, shuffled.ips);
  }

  /** A permutation of a list without duplicates has the same elements and no duplicates. */
  lemma SameElements(a: seq<nat>, b: seq<nat>)
    requires multiset(a) == multiset(b) && NoDuplicates(a)
    ensures (forall x :: x in a <==> x in b) && NoDuplicates(b) && |a| == |b|
  {
    assert forall x :: x in a <==> x in multiset(a);
    assert forall x :: x in b <==> x in multiset(b);
    assert |multiset(a)| == |a| && |multiset(b)| == |b|;
    forall x
      ensures multiset(b)[x] <= 1
    {
      CountOnce(a, x);
    }
    OnceIsDistinct(b);
  }

  lemma {:induction false} CountOnce(a: seq<nat>, x: nat)
    requires NoDuplicates(a)
    ensures multiset(a)[x] <= 1
  {
    if a != [] {
      var front, last := a[..|a| - 1], a[|a| - 1];
      assert a == front + [last];
      CountOnce(front, x);
      assert last !in front;
      assert multiset(front)[last] == 0;
    }
  }

  lemma {:induction false} OnceIsDistinct(b: seq<nat>)
    requires forall x :: multiset(b)[x] <= 1
    ensures NoDuplicates(b)
  {
    if b != [] {
      var front, last := b[..|b| - 1], b[|b| - 1];
      assert b == front + [last];
      assert forall x :: multiset(b)[x] == multiset(front)[x] + if x == last then 1 else 0;
      OnceIsDistinct(front);
      assert last !in multiset(front);
    }
  }

  lemma EmptyIffNoAnswer(r: Summary, servers: seq<Server>, records: map<string, Answer>, area: AreaTest, now: nat)
    requires Delivered(r, servers, records, area, now)
    ensures r.ips == [] <==> AnswerIps(servers, records) == {}
  {
    hide ServerId;
    assert r.ips != [] ==> r.ips[0] in r.ips;
    var i := FirstMatch(servers, records, area, 0);
    if i < |servers| {
      var ip :| ip in records[IdOf(servers[i])].ips && area(servers[i].areas, ip);
      assert servers[i] in servers && ip in AnswerIps(servers, records);
      assert ip in TrustedIps(servers[i], records, area);
      assert ip in r.ips;
    } else if AnswerIps(servers, records) != {} {
      var ip :| ip in AnswerIps(servers, records);
      assert ip in r.ips;
    }
  }

  /** `query_record_from_cache`: a LAN name without an answer is looked up again without its suffix. */
  method QueryRecordFromCache(c: Setup, forward: Forward, host: string, now: nat, seed: nat) returns (record: DnsRecord)
    requires SetupFits(c)
    ensures var name := NameServed(c, forward, host);
            Answers(c, forward, host, now, record.summary) && record.domain == host &&
            record.servers == Contributors(SelectedFor(c, name), RecordsOf(forward, name)) &&
            (record.summary.ips == [] <==> !HasAnswer(c, forward, name))
  {
    hide Delivered, HasAnswer, LastLabel, Contributors;
    record := Resolve(c, forward, host, now, seed);
    if record.summary.ips == [] {
      var fiDomain := LastLabel(host);
      if fiDomain == "LAN" || fiDomain == "lan" {
        NeverLowerCase(host);
        record := Resolve(c, forward, WithoutLastLabel(host), now, seed);
        record := record.(domain := host);
      }
    }
  }

  /** The last label is upper-cased, so the comparison with "lan" never succeeds. */
  lemma NeverLowerCase(host: string)
    ensures LastLabel(host) != "lan"
  {
    assert "lan"[0] == 'l';
    match LastDot(host)
    case None =>
    case Some(p) =>
      var tail := host[p + 1..];
      if |tail| > 0 {
        assert Upper(tail)[0] == UpperChar(tail[0]) != 'l';
      }
  }

  // ----- Runs -----

  /** What reaches the store: a remote answer, or the console removing one name or all. */
  datatype Event = Answered(host: string, server: string, ips: seq<nat>, expire: nat, now: nat) | Forget(host: string)
                 | ForgetAll

  /** The completion handler of a refresh adds an answer only if it holds an address. */
  function AfterEvent(forward: Forward, e: Event): Forward {
    match e
    case Answered(host, server, ips, expire, now) =>
      if ips == [] then forward else AfterAdd(forward, host, server, StampedAnswer(ips, expire, now))
    case Forget(host) => forward - {host}
    case ForgetAll => map[]
  }

  /**
   * The completion handler of a refresh: stores a non-empty answer, for half the time if an area's answer is missing,
   * and resolves the host again.
   */
  method SyncAnswer(manager: RecordManager, c: Setup, host: string, server: Server, cacheExpire: nat, ips: seq<nat>,
                    loadAll: bool, now: nat, seed: nat)
    returns (record: DnsRecord)
    requires SetupFits(c) && Sound(manager.Abs())
    modifies manager
    ensures var expire := if loadAll then cacheExpire else cacheExpire / 2;
            manager.forward == AfterEvent(old(manager.forward), Answered(host, IdOf(server), ips, expire, now))
    ensures Sound(manager.Abs())
    ensures Delivered(record.summary, SelectedFor(c, host), RecordsOf(manager.forward, host), c.area, now)
  {
    hide Delivered, Sound, ServerId, SetupFits;
    if ips != [] {
      var expire := if loadAll then cacheExpire else cacheExpire / 2;
      CallKeepsSound(manager.Abs(), Add(host, IdOf(server), StampedAnswer(ips, expire, now)));
      manager.DoAdd(host, ips, IdOf(server), expire, now);
    }
    record := Resolve(c, manager.forward, host, now, seed);
  }

  function AfterRun(events: seq<Event>): Forward {
    if events == [] then map[] else AfterEvent(AfterRun(events[..|events| - 1]), events[|events| - 1])
  }

  /** The latest answer of `server` for `host` that no removal has followed. */
  function Latest(events: seq<Event>, host: string, server: string): Option<Answer> {
    if events == [] then None
    else
      var front := Latest(events[..|events| - 1], host, server);
      match events[|events| - 1]
      case Answered(h, s, ips, expire, now) =>
        if h == host && s == server && ips != [] then Some(StampedAnswer(ips, expire, now)) else front
      case Forget(h) => if h == host then None else front
      case ForgetAll => None
  }

  /** After any run the store holds exactly the latest answers. */
  lemma {:induction false} StoreHoldsLatest(events: seq<Event>, host: string, server: string)
    ensures var records := RecordsOf(AfterRun(events), host);
            Latest(events, host, server) == if server in records then Some(records[server]) else None
  {
    if events != [] {
      StoreHoldsLatest(events[..|events| - 1], host, server);
    }
  }

  /** The event is a non-empty answer of `server` for `host`. */
  predicate Answering(e: Event, host: string, server: string) {
    e.Answered? && e.host == host && e.server == server && e.ips != []
  }

  predicate Forgetting(e: Event, host: string) {
    e.ForgetAll? || (e.Forget? && e.host == host)
  }

  /** Event `i` is the last one that concerns what `server` said about `host`. */
  predicate LastWord(events: seq<Event>, host: string, server: string, i: nat) {
    i < |events| && forall k :: i < k < |events| ==> !Answering(events[k], host, server) && !Forgetting(events[k], host)
  }

  /**
   * The latest answer is that of the last answering event that no removal follows: its addresses, until the second
   * its time to live ends.
   */
  lemma {:induction false} LatestWasDelivered(events: seq<Event>, host: string, server: string) returns (i: nat)
    requires Latest(events, host, server).Some?
    ensures LastWord(events, host, server, i) && Answering(events[i], host, server)
    ensures events[i].ips == Latest(events, host, server).value.ips
    ensures events[i].expire + events[i].now < TWO_TO_THE_32 ==>
              Latest(events, host, server).value.expire == events[i].expire + events[i].now
  {
    var front, last := events[..|events| - 1], events[|events| - 1];
    if Answering(last, host, server) {
      i := |events| - 1;
    } else {
      i := LatestWasDelivered(front, host, server);
      assert events[i] == front[i];
      forall k | i < k < |events|
        ensures !Answering(events[k], host, server) && !Forgetting(events[k], host)
      {
        assert k < |front| ==> events[k] == front[k];
      }
    }
  }

  /** There is a latest answer exactly when some answering event is the last word. */
  lemma {:induction false} LatestIff(events: seq<Event>, host: string, server: string, i: nat)
    requires LastWord(events, host, server, i)
    ensures Answering(events[i], host, server) ==> Latest(events, host, server).Some?
    ensures Forgetting(events[i], host) ==> Latest(events, host, server).None?
  {
    var front, last := events[..|events| - 1], events[|events| - 1];
    if i < |front| {
      forall k | i < k < |front|
        ensures !Answering(front[k], host, server) && !Forgetting(front[k], host)
      {
        assert front[k] == events[k];
      }
      assert !Answering(last, host, server) && !Forgetting(last, host);
      LatestIff(front, host, server, i);
    }
  }

  /** `server`'s latest answer for `name` holds `ip`. */
  ghost predicate Backs(events: seq<Event>, name: string, server: Server, ip: nat) {
    var latest := Latest(events, name, IdOf(server));
    latest.Some? && ip in latest.value.ips
  }

  lemma AnswerIpsAreBacked(c: Setup, events: seq<Event>, name: string)
    ensures forall ip :: ip in AnswerIps(SelectedFor(c, name), RecordsOf(AfterRun(events), name)) <==>
              exists server :: server in SelectedFor(c, name) && Backs(events, name, server, ip)
  {
    hide ServerId, Selected, AfterRun, Latest;
    var records := RecordsOf(AfterRun(events), name);
    forall server: Server
      ensures Latest(events, name, IdOf(server)) ==
              if IdOf(server) in records then Some(records[IdOf(server)]) else None
    {
      StoreHoldsLatest(events, name, IdOf(server));
    }
  }

  /** No selected server's latest answer holds an address for `name`. */
  ghost predicate Unanswered(c: Setup, events: seq<Event>, name: string) {
    forall server, ip :: server in SelectedFor(c, name) ==> !Backs(events, name, server, ip)
  }

  lemma UnansweredIff(c: Setup, events: seq<Event>, name: string)
    ensures Unanswered(c, events, name) <==> !HasAnswer(c, AfterRun(events), name)
  {
    hide ServerId, Selected, AfterRun, Backs;
    AnswerIpsAreBacked(c, events, name);
    var ips := AnswerIps(SelectedFor(c, name), RecordsOf(AfterRun(events), name));
    forall server, ip | server in SelectedFor(c, name) && Backs(events, name, server, ip)
      ensures ip in ips
    {
    }
    if ips != {} {
      var ip :| ip in ips;
    }
  }

  /** Delivered addresses are among those the answers hold. */
  lemma DeliveredAreAnswers(r: Summary, servers: seq<Server>, records: map<string, Answer>, area: AreaTest, now: nat)
    requires Delivered(r, servers, records, area, now)
    ensures forall ip :: ip in r.ips ==> ip in AnswerIps(servers, records)
  {
    hide ServerId;
    var i := FirstMatch(servers, records, area, 0);
    if i < |servers| {
      assert servers[i] in servers;
    }
  }

  /**
   * At any point of any run, the addresses served for a host come only from the latest answers, not since removed,
   * of servers selected for the host, or for the host without its LAN suffix when the host itself has none. Something
   * is served whenever such an answer exists.
   */
  lemma ServedComeFromLatest(c: Setup, events: seq<Event>, host: string, now: nat, r: Summary)
    requires Served(c, AfterRun(events), host, now, r) && host != "localhost"
    ensures var name := NameServed(c, AfterRun(events), host);
            (name == host || (name == WithoutLastLabel(host) && IsLan(host) && Unanswered(c, events, host))) &&
            (forall ip :: ip in r.ips ==>
               exists server :: server in SelectedFor(c, name) && Backs(events, name, server, ip)) &&
            (r.ips == [] <==> Unanswered(c, events, name))
  {
    hide ServerId, Selected, AfterRun, Backs, Delivered, LastLabel;
    var forward, name := AfterRun(events), NameServed(c, AfterRun(events), host);
    DeliveredAreAnswers(r, SelectedFor(c, name), RecordsOf(forward, name), c.area, now);
    EmptyIffNoAnswer(r, SelectedFor(c, name), RecordsOf(forward, name), c.area, now);
    AnswerIpsAreBacked(c, events, name);
    UnansweredIff(c, events, name);
    UnansweredIff(c, events, host);
  }

  /** The text behind the last dot decides: only names under `lan` without an answer are looked up without it. */
  lemma NameServedIs(c: Setup, forward: Forward, front: string, last: string)
    requires '.' !in last
    ensures var host := front + "." + last;
            NameServed(c, forward, host) ==
            if Upper(last) == "LAN" && AnswerIps(SelectedFor(c, host), RecordsOf(forward, host)) == {} then front
            else host
    ensures NameServed(c, forward, last) == last
  {
    hide Selected, LastLabel, WithoutLastLabel, Upper;
    LabelsAroundLastDot(front, last);
  }

  /** A LAN name without a latest answer is served the latest answers for the name in front of its suffix. */
  lemma LanFallback(c: Setup, events: seq<Event>, front: string, last: string, now: nat, r: Summary)
    requires '.' !in last && Upper(last) == "LAN"
    requires Unanswered(c, events, front + "." + last) && !Unanswered(c, events, front)
    requires Served(c, AfterRun(events), front + "." + last, now, r)
    ensures r.ips != []
    ensures forall ip :: ip in r.ips ==>
              exists server :: server in SelectedFor(c, front) && Backs(events, front, server, ip)
  {
    hide Served, Selected, AfterRun, Backs, Unanswered, LastLabel, WithoutLastLabel, Upper;
    var host := front + "." + last;
    assert host[|front|] == '.';
    assert '.' !in "localhost";
    NameServedIs(c, AfterRun(events), front, last);
    UnansweredIff(c, events, host);
    ServedComeFromLatest(c, events, host, now, r);
  }

  /** Nothing is served that no remote answer delivered. */
  lemma NothingInvented(c: Setup, events: seq<Event>, host: string, now: nat, r: Summary, ip: nat)
    requires Served(c, AfterRun(events), host, now, r) && ip in r.ips
    ensures exists i :: 0 <= i < |events| && events[i].Answered? && ip in events[i].ips &&
                        (events[i].host == host || events[i].host == WithoutLastLabel(host))
  {
    hide ServerId, Selected, AfterRun, Delivered, LastLabel, Latest;
    ServedComeFromLatest(c, events, host, now, r);
    var name := NameServed(c, AfterRun(events), host);
    var server :| server in SelectedFor(c, name) && Backs(events, name, server, ip);
    var i := LatestWasDelivered(events, name, IdOf(server));
  }

  /**
   * What is served with addresses stems from the last word of a selected server, and is marked expired exactly when
   * the second it is served at lies behind the answer's time to live.
   */
  lemma ServedExpiry(c: Setup, events: seq<Event>, host: string, now: nat, r: Summary) returns (i: nat)
    requires Served(c, AfterRun(events), host, now, r) && host != "localhost" && r.ips != []
    ensures LastWord(events, NameServed(c, AfterRun(events), host), r.server, i)
    ensures Answering(events[i], NameServed(c, AfterRun(events), host), r.server)
    ensures events[i].expire + events[i].now < TWO_TO_THE_32 ==>
              r.expireTime == events[i].expire + events[i].now &&
              (r.expire <==> events[i].expire + events[i].now < now)
    ensures exists server :: server in SelectedFor(c, NameServed(c, AfterRun(events), host)) && IdOf(server) == r.server
  {
    hide ServerId, Selected, AfterRun, Latest, LastLabel, NameServed;
    var name := NameServed(c, AfterRun(events), host);
    var servers, records := SelectedFor(c, name), RecordsOf(AfterRun(events), name);
    var server := LeadOf(r, servers, records, c.area, now);
    StoreHoldsLatest(events, name, IdOf(server));
    i := LatestWasDelivered(events, name, IdOf(server));
  }

  lemma LeadOf(r: Summary, servers: seq<Server>, records: map<string, Answer>, area: AreaTest, now: nat)
    returns (server: Server)
    requires Delivered(r, servers, records, area, now) && r.ips != []
    ensures server in servers && LeadIs(r, server, records, now)
  {
    hide ServerId;
    var i, j := FirstMatch(servers, records, area, 0), FirstAnswer(servers, records, 0);
    server := servers[if i < |servers| then i else j];
  }
}
