/** A client's question for addresses: what is answered from the store, and which servers are then asked again. */
module Queries {
  import opened Sequences
  import opened Servers
  import opened RecordStore
  import opened Resolution
  import opened ResolutionLaws
  import opened ServerRuns
  import T = TaskQueue
  import opened RefreshTasks

  /** The first selected server with a matching address has an answer whose second has not passed. */
  predicate Fresh(c: Setup, forward: Forward, name: string, now: nat) {
    var servers, records := SelectedFor(c, name), RecordsOf(forward, name);
    var i := FirstMatch(servers, records, c.area, 0);
    i < |servers| && IdOf(servers[i]) in records && records[IdOf(servers[i])].expire >= now
  }

  /**
   * The servers to ask again after a question for `host`: none for `localhost`, those without a stored address if the
   * answer given is trusted and fresh, and all selected ones otherwise.
   */
  function AskedAgain(c: Setup, forward: Forward, host: string, now: nat): seq<Server> {
    var name := NameServed(c, forward, host);
    if host == "localhost" then []
    else if Fresh(c, forward, name, now) then
      LackedBy(Contributors(SelectedFor(c, name), RecordsOf(forward, name)), SelectedFor(c, host))
    else SelectedFor(c, host)
  }

  /**
   * `query_dns_record`. Without a stored address the store is read once more a tenth of a second later; `later` is
   * what it then holds.
   */
  method QueryDnsRecord(queue: T.Queue<Refresh>, c: Setup, forward: Forward, later: Forward, host: string, now: nat,
                        laterNow: nat, seed: nat, firstId: nat)
    returns (record: DnsRecord, nextId: nat)
    requires SetupFits(c) && queue.Valid() && forall id :: id in queue.seen ==> id < firstId
    modifies queue
    ensures queue.Valid()
    ensures queue.Abs() == AfterSync(old(queue.Abs()), host, AskedAgain(c, forward, host, now), firstId)
    ensures record.domain == host
    ensures host == "localhost" ==>
              record.servers == {} && record.summary.server == "st-dns" && record.summary.ips == [] &&
              record.summary.expireTime == 0xFFFF_FFFF_FFFF_FFFF && queue.Abs() == old(queue.Abs())
    ensures if host == "localhost" || HasAnswer(c, forward, NameServed(c, forward, host))
            then Served(c, forward, host, now, record.summary)
            else Served(c, later, host, laterNow, record.summary)
  {
    hide Answers, NameServed, HasAnswer, SelectedFor, Contributors, SetupFits, Fresh, LackedBy;
    if host == "localhost" {
      record := DnsRecord(host, {}, Summary([], "st-dns", 0xFFFF_FFFF_FFFF_FFFF, false, false, 0, 0));
      return record, firstId;
    }
    record := QueryRecordFromCache(c, forward, host, now, seed);
    FreshIff(c, forward, host, now, record.summary);
    if record.summary.ips == [] {
      nextId := Sync(queue, c, host, firstId);
      record := QueryRecordFromCache(c, later, host, laterNow, seed);
    } else if record.summary.expire || !record.summary.matchArea {
      nextId := Sync(queue, c, host, firstId);
    } else {
      nextId := SyncLoss(queue, c, host, record.servers, firstId);
    }
  }

  method Sync(queue: T.Queue<Refresh>, c: Setup, host: string, firstId: nat) returns (nextId: nat)
    requires queue.Valid() && forall id :: id in queue.seen ==> id < firstId
    modifies queue
    ensures queue.Valid() && queue.Abs() == AfterSync(old(queue.Abs()), host, SelectedFor(c, host), firstId)
  {
    nextId := SyncFromRemote(queue, c.matches, host, c.servers, firstId);
  }

  method SyncLoss(queue: T.Queue<Refresh>, c: Setup, host: string, have: set<string>, firstId: nat)
    returns (nextId: nat)
    requires queue.Valid() && forall id :: id in queue.seen ==> id < firstId
    modifies queue
    ensures queue.Valid()
    ensures queue.Abs() == AfterSync(old(queue.Abs()), host, LackedBy(have, SelectedFor(c, host)), firstId)
  {
    nextId := SyncLossFromRemote(queue, c.matches, host, c.servers, have, firstId);
  }

  /** The flags of an answer tell exactly whether it is trusted and fresh. */
  lemma FreshIff(c: Setup, forward: Forward, host: string, now: nat, r: Summary)
    requires Answers(c, forward, host, now, r)
    ensures var name := NameServed(c, forward, host);
            (Fresh(c, forward, name, now) <==> r.matchArea && !r.expire) &&
            (Fresh(c, forward, name, now) ==> r.ips != [])
  {
    hide Selected, NameServed, ServerId;
    var name := NameServed(c, forward, host);
    var servers, records := SelectedFor(c, name), RecordsOf(forward, name);
    var i := FirstMatch(servers, records, c.area, 0);
    if i < |servers| {
      var ip :| ip in records[IdOf(servers[i])].ips && c.area(servers[i].areas, ip);
      assert ip in TrustedIps(servers[i], records, c.area);
      assert ip in r.ips;
    }
  }

  /**
   * All selected servers are asked again if the answer is empty, expired or not trusted; otherwise exactly those for
   * which no selected server of that id has a stored address.
   */
  lemma AskedAgainIs(c: Setup, forward: Forward, host: string, now: nat, r: Summary)
    requires Answers(c, forward, host, now, r) && host != "localhost"
    ensures r.ips == [] || r.expire || !r.matchArea ==> AskedAgain(c, forward, host, now) == SelectedFor(c, host)
    ensures r.ips != [] && !r.expire && r.matchArea ==>
              forall server :: server in AskedAgain(c, forward, host, now) <==>
                server in SelectedFor(c, host) && !Contributes(c, forward, NameServed(c, forward, host), IdOf(server))
  {
    hide Answers, Fresh, SelectedFor, NameServed, LackedBy, ServerId;
    FreshIff(c, forward, host, now, r);
    var name := NameServed(c, forward, host);
    var have, servers := Contributors(SelectedFor(c, name), RecordsOf(forward, name)), SelectedFor(c, host);
    forall server
      ensures server in LackedBy(have, servers) <==>
              server in servers && !Contributes(c, forward, name, IdOf(server))
    {
      LackedByIs(have, servers, server);
    }
  }

  /** Some server with this id that is selected for the name has a stored answer with an address. */
  ghost predicate Contributes(c: Setup, forward: Forward, name: string, id: string) {
    exists other :: other in SelectedFor(c, name) && IdOf(other) == id && id in RecordsOf(forward, name) &&
                    RecordsOf(forward, name)[id].ips != []
  }

  /** The answer `r` was empty, expired or not trusted, or this server contributed nothing to it. */
  ghost predicate Wanted(c: Setup, forward: Forward, host: string, r: Summary, server: Server) {
    r.ips == [] || r.expire || !r.matchArea || !Contributes(c, forward, NameServed(c, forward, host), IdOf(server))
  }

  /**
   * After a question every selected server is being asked again if the client was told nothing, or something expired or
   * not trusted, and otherwise every one that contributed nothing. Other refreshes go on as they were.
   */
  lemma StaleIsRefreshed(q: T.Config, s: T.State<Refresh>, c: Setup, forward: Forward, host: string, now: nat,
                         r: Summary, firstId: nat)
    requires T.Inv(q, s) && (forall id :: id in s.seen ==> id < firstId)
    requires Answers(c, forward, host, now, r) && host != "localhost"
    ensures var s' := AfterSync(s, host, AskedAgain(c, forward, host, now), firstId);
            (forall server :: server in SelectedFor(c, host) && Wanted(c, forward, host, r, server) ==>
               Refreshing(s', host, server)) &&
            forall id :: id in s.tasks ==> id in s'.tasks && s'.tasks[id] == s.tasks[id]
  {
    hide Answers, SelectedFor, NameServed, AskedAgain, Contributes, AfterSync, Refreshing, ServerId;
    AskedAgainIs(c, forward, host, now, r);
    SyncAsksAll(q, s, host, AskedAgain(c, forward, host, now), firstId);
  }
}
