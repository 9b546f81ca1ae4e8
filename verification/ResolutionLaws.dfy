/** What resolving means in terms of the stored answers, for every arrangement the unstable sort may choose. */
module ResolutionLaws {
  import opened Sequences
  import opened Servers
  import opened RecordStore
  import opened Resolution

  // ----- What flattening guarantees -----

  /** Records carry server names, none is forbidden, and records of one position agree on their server. */
  ghost predicate WellTagged(flat: seq<IpRecord>) {
    (forall x :: x in flat ==> x.server != "" && !x.forbid) &&
    forall x, y :: x in flat && y in flat ==>
      (x.order == y.order <==> x.server == y.server) &&
      (x.server == y.server ==> x.expire == y.expire && x.expireTime == y.expireTime)
  }

  predicate InServerOrder(flat: seq<IpRecord>) {
    forall i, j :: 0 <= i < j < |flat| ==> flat[i].order <= flat[j].order
  }

  /** `x` stems from the answer of the server at `x`'s position. */
  predicate StemsFrom(x: IpRecord, servers: seq<Server>, records: map<string, Answer>, area: AreaTest, now: nat) {
    1 <= x.order <= |servers| &&
    var server := servers[x.order - 1];
    IdOf(server) in records && x.ip in records[IdOf(server)].ips &&
    x == ItemOf(x.ip, server, x.order, records[IdOf(server)], area, now)
  }

  /** With at most 255 servers, flattening yields exactly the answers of the selected servers, in their order. */
  lemma FlattenIs(servers: seq<Server>, records: map<string, Answer>, area: AreaTest, now: nat)
    requires |servers| <= 255
    ensures forall x :: x in Flatten(servers, records, area, now) <==> StemsFrom(x, servers, records, area, now)
    ensures InServerOrder(Flatten(servers, records, area, now))
  {
    hide ServerId, StemsFrom, Flatten;
    forall x
      ensures x in Flatten(servers, records, area, now) <==> StemsFrom(x, servers, records, area, now)
    {
      FlattenMember(x, servers, records, area, now);
    }
    FlattenOrder(servers, records, area, now);
  }

  /** The last server's items, if it has an answer. */
  function LastItems(servers: seq<Server>, records: map<string, Answer>, area: AreaTest, now: nat): seq<IpRecord>
    requires servers != []
  {
    var last := servers[|servers| - 1];
    if IdOf(last) in records then ItemsOf(last, |servers|, records[IdOf(last)], area, now) else []
  }

  lemma FlattenLast(servers: seq<Server>, records: map<string, Answer>, area: AreaTest, now: nat)
    requires 0 < |servers| <= 255
    ensures Flatten(servers, records, area, now) ==
            Flatten(servers[..|servers| - 1], records, area, now) + LastItems(servers, records, area, now)
  {
    hide ServerId, ItemsOf;
  }

  lemma ItemsOrder(server: Server, order: nat, records: map<string, Answer>, area: AreaTest, now: nat)
    ensures IdOf(server) in records ==>
              forall x :: x in ItemsOf(server, order, records[IdOf(server)], area, now) ==> x.order == order
  {
    hide ServerId;
  }

  lemma {:induction false} FlattenMember(x: IpRecord, servers: seq<Server>, records: map<string, Answer>,
                                         area: AreaTest, now: nat)
    requires |servers| <= 255
    ensures x in Flatten(servers, records, area, now) <==> StemsFrom(x, servers, records, area, now)
  {
    if servers != [] {
      hide ServerId, StemsFrom, ItemsOf;
      FlattenMember(x, servers[..|servers| - 1], records, area, now);
      StemsFromLast(x, servers, records, area, now);
      FlattenLast(servers, records, area, now);
      hide Flatten;
    }
  }

  lemma {:induction false} FlattenOrder(servers: seq<Server>, records: map<string, Answer>, area: AreaTest, now: nat)
    requires |servers| <= 255
    ensures InServerOrder(Flatten(servers, records, area, now))
    ensures forall x :: x in Flatten(servers, records, area, now) ==> x.order <= |servers|
  {
    if servers != [] {
      hide ServerId, ItemOf;
      FlattenOrder(servers[..|servers| - 1], records, area, now);
      FlattenLast(servers, records, area, now);
      ItemsOrder(servers[|servers| - 1], |servers|, records, area, now);
      hide Flatten;
    }
  }

  lemma StemsFromLast(x: IpRecord, servers: seq<Server>, records: map<string, Answer>, area: AreaTest, now: nat)
    requires servers != []
    ensures var n := |servers|;
            var last := servers[n - 1];
            StemsFrom(x, servers, records, area, now) <==>
            StemsFrom(x, servers[..n - 1], records, area, now) ||
            (IdOf(last) in records && x in ItemsOf(last, n, records[IdOf(last)], area, now))
  {
    hide ServerId;
    var n := |servers|;
    var last := servers[n - 1];
    if IdOf(last) in records {
      var answer := records[IdOf(last)];
      ItemsAre(x, last, n, answer, area, now);
    }
  }

  lemma ItemsAre(x: IpRecord, server: Server, order: nat, answer: Answer, area: AreaTest, now: nat)
    ensures x in ItemsOf(server, order, answer, area, now) <==>
            x.ip in answer.ips && x == ItemOf(x.ip, server, order, answer, area, now)
  {
    hide ServerId;
    if x.ip in answer.ips {
      var i :| 0 <= i < |answer.ips| && answer.ips[i] == x.ip;
      assert ItemsOf(server, order, answer, area, now)[i] == ItemOf(x.ip, server, order, answer, area, now);
    }
  }

  lemma FlattenIsWellTagged(servers: seq<Server>, records: map<string, Answer>, area: AreaTest, now: nat)
    requires |servers| <= 255 && DistinctIds(servers)
    ensures WellTagged(Flatten(servers, records, area, now))
  {
    hide ServerId, StemsFrom, Flatten;
    FlattenIs(servers, records, area, now);
    var flat := Flatten(servers, records, area, now);
    forall x | x in flat
      ensures x.server != "" && !x.forbid
    {
      TagsOf(x, x, servers, records, area, now);
    }
    forall x, y | x in flat && y in flat
      ensures (x.order == y.order <==> x.server == y.server) &&
              (x.server == y.server ==> x.expire == y.expire && x.expireTime == y.expireTime)
    {
      TagsOf(x, y, servers, records, area, now);
    }
  }

  lemma TagsOf(x: IpRecord, y: IpRecord, servers: seq<Server>, records: map<string, Answer>, area: AreaTest, now: nat)
    requires DistinctIds(servers)
    requires StemsFrom(x, servers, records, area, now) && StemsFrom(y, servers, records, area, now)
    ensures x.server != "" && !x.forbid && (x.order == y.order <==> x.server == y.server)
    ensures x.server == y.server ==> x.expire == y.expire && x.expireTime == y.expireTime
  {
    hide ServerId;
  }

  // ----- The head of the sorted records -----

  /** The first record that matches its server's areas, or else the first record. */
  function LeadIndex(flat: seq<IpRecord>, from: nat): (r: nat)
    requires from <= |flat|
    ensures from <= r <= |flat| && (r < |flat| ==> flat[r].matchArea)
    ensures forall i :: from <= i < r ==> !flat[i].matchArea
    decreases |flat| - from
  {
    if from == |flat| || flat[from].matchArea then from else LeadIndex(flat, from + 1)
  }

  function Lead(flat: seq<IpRecord>): (r: IpRecord)
    requires flat != []
    ensures r in flat
  {
    var i := LeadIndex(flat, 0);
    if i < |flat| then flat[i] else flat[0]
  }

  lemma SameMembers(s: seq<IpRecord>, flat: seq<IpRecord>)
    requires multiset(s) == multiset(flat)
    ensures forall x :: x in s <==> x in flat
    ensures |s| == |flat|
  {
    assert forall x :: x in s <==> x in multiset(s);
    assert forall x :: x in flat <==> x in multiset(flat);
    assert |s| == |multiset(s)| && |flat| == |multiset(flat)|;
  }

  /** Whatever the sort did with equal records, the head comes from the server of the lead. */
  lemma HeadIsLead(s: seq<IpRecord>, flat: seq<IpRecord>)
    requires IsSortOf(s, flat) && flat != [] && WellTagged(flat) && InServerOrder(flat)
    ensures s != [] && s[0].matchArea == Lead(flat).matchArea && s[0].server == Lead(flat).server
    ensures s[0].expire == Lead(flat).expire && s[0].expireTime == Lead(flat).expireTime
  {
    SameMembers(s, flat);
    var lead, k := Lead(flat), LeadIndex(flat, 0);
    var j :| 0 <= j < |s| && s[j] == lead;
    assert !Compare(lead, s[0]);
    assert s[0] in s && s[0] in flat;
    var i :| 0 <= i < |flat| && flat[i] == s[0];
    assert s[0].matchArea ==> k <= i;
    assert lead.order <= s[0].order;
  }

  // ----- What the loops choose -----

  ghost predicate SameSet(ips: seq<nat>, elements: set<nat>) {
    NoDuplicates(ips) && forall ip :: ip in ips <==> ip in elements
  }

  function MatchingIps(s: seq<IpRecord>, server: string): set<nat> {
    set x | x in s && x.matchArea && x.server == server :: x.ip
  }

  function AllIps(s: seq<IpRecord>): set<nat> {
    set x | x in s :: x.ip
  }

  function Unmatched(s: seq<IpRecord>): nat {
    if s == [] then 0 else Unmatched(s[..|s| - 1]) + if s[|s| - 1].matchArea then 0 else 1
  }

  lemma SplitLast(s: seq<IpRecord>)
    requires s != []
    ensures forall x :: x in s <==> x in s[..|s| - 1] || x == s[|s| - 1]
  {
    assert s == s[..|s| - 1] + [s[|s| - 1]];
  }

  lemma {:induction false} PickWithoutMatch(s: seq<IpRecord>)
    requires forall x :: x in s ==> !x.matchArea
    ensures PickAll(s) == Pick("", [], 0, |s|) && Unmatched(s) == |s|
  {
    if s != [] {
      SplitLast(s);
      PickWithoutMatch(s[..|s| - 1]);
    }
  }

  /** Behind a matching head, the loop takes exactly the distinct matching addresses of the head's server. */
  lemma {:induction false} PickWithMatch(s: seq<IpRecord>)
    requires s != [] && s[0].matchArea && forall x :: x in s ==> x.server != "" && !x.forbid
    ensures var p := PickAll(s);
            p.server == s[0].server && SameSet(p.ips, MatchingIps(s, s[0].server)) && p.ips != [] &&
            p.trusted == |p.ips| && p.total == p.trusted + Unmatched(s)
  {
    var front, item := s[..|s| - 1], s[|s| - 1];
    SplitLast(s);
    if front == [] {
      assert PickAll(front) == Pick("", [], 0, 0);
      assert MatchingIps(s, s[0].server) == {item.ip};
      assert PickAll(s).ips == [item.ip];
      assert Unmatched(front) == 0;
    } else {
      PickWithMatch(front);
      assert front[0] == s[0];
      if item.matchArea && item.server == s[0].server {
        assert MatchingIps(s, s[0].server) == MatchingIps(front, s[0].server) + {item.ip};
      } else {
        assert MatchingIps(s, s[0].server) == MatchingIps(front, s[0].server);
      }
    }
  }

  /** Only addresses of matching records that are not forbidden are ever picked, and each once. */
  lemma {:induction false} PickIsTrusted(s: seq<IpRecord>)
    ensures NoDuplicates(PickAll(s).ips) && PickAll(s).trusted == |PickAll(s).ips|
    ensures forall ip :: ip in PickAll(s).ips ==> exists x :: x in s && x.ip == ip && x.matchArea && !x.forbid
  {
    if s != [] {
      SplitLast(s);
      PickIsTrusted(s[..|s| - 1]);
    }
  }

  lemma {:induction false} FillIs(s: seq<IpRecord>)
    ensures SameSet(FillAll(s), AllIps(s))
  {
    if s != [] {
      SplitLast(s);
      FillIs(s[..|s| - 1]);
      assert AllIps(s) == AllIps(s[..|s| - 1]) + {s[|s| - 1].ip};
    }
  }

  lemma {:induction false} UnmatchedAppend(a: seq<IpRecord>, b: seq<IpRecord>)
    ensures Unmatched(a + b) == Unmatched(a) + Unmatched(b)
  {
    if b == [] {
      assert a + b == a;
    } else {
      assert (a + b)[..|a + b| - 1] == a + b[..|b| - 1];
      UnmatchedAppend(a, b[..|b| - 1]);
    }
  }

  lemma {:induction false} UnmatchedOfPermutation(s: seq<IpRecord>, t: seq<IpRecord>)
    requires multiset(s) == multiset(t)
    ensures Unmatched(s) == Unmatched(t)
    decreases |s|
  {
    if s == [] {
      assert |t| == |multiset(t)|;
    } else {
      var x, front := s[|s| - 1], s[..|s| - 1];
      assert Unmatched(s) == Unmatched(front) + if x.matchArea then 0 else 1;
      hide Unmatched;
      assert x in multiset(s) && x in t;
      var i :| 0 <= i < |t| && t[i] == x;
      var rest := t[..i] + t[i + 1..];
      TakeOut(t, i);
      TakeOut(s, |s| - 1);
      assert front + s[|s|..] == front;
      UnmatchedOfPermutation(front, rest);
      UnmatchedTakeOut(t, i);
    }
  }

  lemma TakeOut(t: seq<IpRecord>, i: nat)
    requires i < |t|
    ensures multiset(t[..i] + t[i + 1..]) == multiset(t) - multiset{t[i]}
  {
    assert t == t[..i] + [t[i]] + t[i + 1..];
  }

  lemma UnmatchedTakeOut(t: seq<IpRecord>, i: nat)
    requires i < |t|
    ensures Unmatched(t) == Unmatched(t[..i] + t[i + 1..]) + if t[i].matchArea then 0 else 1
  {
    hide Unmatched;
    var a, x, b := t[..i], [t[i]], t[i + 1..];
    assert t == a + x + b;
    UnmatchedOne(t[i]);
    UnmatchedAppend(a, b);
    UnmatchedAppend(a + x, b);
    UnmatchedAppend(a, x);
  }

  lemma UnmatchedOne(x: IpRecord)
    ensures Unmatched([x]) == if x.matchArea then 0 else 1
  {
    assert [x][..0] == [];
  }

  /** What every admissible sort leads to. */
  ghost predicate Resolves(r: Summary, flat: seq<IpRecord>)
    requires flat != []
  {
    var lead := Lead(flat);
    r.server == lead.server && r.matchArea == lead.matchArea && r.expire == lead.expire &&
    r.expireTime == lead.expireTime && r.total == r.trusted + Unmatched(flat) &&
    SameSet(r.ips, if lead.matchArea then MatchingIps(flat, lead.server) else AllIps(flat)) &&
    r.trusted == if lead.matchArea then |r.ips| else 0
  }

  /** Every sorted permutation resolves to the same server, flags and counts and to the same set of addresses. */
  lemma EverySortResolves(s: seq<IpRecord>, flat: seq<IpRecord>)
    requires IsSortOf(s, flat) && flat != [] && WellTagged(flat) && InServerOrder(flat)
    ensures Resolves(Summarize(s), flat)
  {
    SameMembers(s, flat);
    HeadIsLead(s, flat);
    UnmatchedOfPermutation(s, flat);
    if s[0].matchArea {
      PickWithMatch(s);
      assert MatchingIps(s, s[0].server) == MatchingIps(flat, s[0].server);
    } else {
      forall x | x in s
        ensures !x.matchArea
      {
        var j :| 0 <= j < |s| && s[j] == x;
        assert j > 0 ==> !Compare(s[j], s[0]);
      }
      PickWithoutMatch(s);
      FillIs(s);
      assert AllIps(s) == AllIps(flat);
    }
  }

  // ----- In terms of servers and answers -----

  predicate HasMatch(server: Server, records: map<string, Answer>, area: AreaTest) {
    IdOf(server) in records && exists ip :: ip in records[IdOf(server)].ips && area(server.areas, ip)
  }

  /** The addresses that the selected servers' answers hold. */
  function AnswerIps(servers: seq<Server>, records: map<string, Answer>): set<nat> {
    set server, ip | server in servers && IdOf(server) in records && ip in records[IdOf(server)].ips :: ip
  }

  /** The matching addresses in one server's answer. */
  function TrustedIps(server: Server, records: map<string, Answer>, area: AreaTest): set<nat>
    requires IdOf(server) in records
  {
    set ip | ip in records[IdOf(server)].ips && area(server.areas, ip)
  }

  /** The position of the first selected server with a matching address. */
  function FirstMatch(servers: seq<Server>, records: map<string, Answer>, area: AreaTest, from: nat): (r: nat)
    requires from <= |servers|
    ensures from <= r <= |servers| && (r < |servers| ==> HasMatch(servers[r], records, area))
    ensures forall i :: from <= i < r ==> !HasMatch(servers[i], records, area)
    decreases |servers| - from
  {
    if from == |servers| || HasMatch(servers[from], records, area) then from
    else FirstMatch(servers, records, area, from + 1)
  }

  predicate HasIps(server: Server, records: map<string, Answer>) {
    IdOf(server) in records && records[IdOf(server)].ips != []
  }

  /** The position of the first selected server whose answer has an address. */
  function FirstAnswer(servers: seq<Server>, records: map<string, Answer>, from: nat): (r: nat)
    requires from <= |servers|
    ensures from <= r <= |servers| && (r < |servers| ==> HasIps(servers[r], records))
    ensures forall i :: from <= i < r ==> !HasIps(servers[i], records)
    decreases |servers| - from
  {
    if from == |servers| || HasIps(servers[from], records) then from else FirstAnswer(servers, records, from + 1)
  }

  function CountMismatches(ips: seq<nat>, areas: seq<string>, area: AreaTest): nat {
    if ips == [] then 0
    else CountMismatches(ips[..|ips| - 1], areas, area) + if area(areas, ips[|ips| - 1]) then 0 else 1
  }

  /** How many addresses of the selected servers' answers do not match their server's areas. */
  function Mismatches(servers: seq<Server>, records: map<string, Answer>, area: AreaTest): nat {
    if servers == [] then 0
    else
      var last := servers[|servers| - 1];
      Mismatches(servers[..|servers| - 1], records, area) +
      if IdOf(last) in records then CountMismatches(records[IdOf(last)].ips, last.areas, area) else 0
  }

  /** Server, expiry second and expire flag of the record are those of the stored answer of the given server. */
  predicate LeadIs(r: Summary, server: Server, records: map<string, Answer>, now: nat) {
    IdOf(server) in records && r.server == IdOf(server) && r.expireTime == records[IdOf(server)].expire &&
    (r.expire <==> records[IdOf(server)].expire < now)
  }

  /** What resolving at second `now` must deliver for the selected servers. */
  ghost predicate Delivered(r: Summary, servers: seq<Server>, records: map<string, Answer>, area: AreaTest, now: nat) {
    var i, j := FirstMatch(servers, records, area, 0), FirstAnswer(servers, records, 0);
    r.total == r.trusted + Mismatches(servers, records, area) &&
    if i < |servers| then
      LeadIs(r, servers[i], records, now) && r.matchArea &&
      SameSet(r.ips, TrustedIps(servers[i], records, area)) && r.trusted == |r.ips|
    else if j < |servers| then
      LeadIs(r, servers[j], records, now) && !r.matchArea &&
      SameSet(r.ips, AnswerIps(servers, records)) && r.trusted == 0
    else
      r.server == "" && r.expireTime == 0 && !r.expire && !r.matchArea && r.ips == [] && r.trusted == 0
  }

  lemma {:induction false} UnmatchedItems(server: Server, order: nat, answer: Answer, ips: seq<nat>, area: AreaTest,
                                          now: nat)
    requires ips <= answer.ips
    ensures Unmatched(ItemsOf(server, order, answer, area, now)[..|ips|]) == CountMismatches(ips, server.areas, area)
  {
    hide ServerId;
    var items := ItemsOf(server, order, answer, area, now);
    if ips != [] {
      UnmatchedItems(server, order, answer, ips[..|ips| - 1], area, now);
      assert items[..|ips|][..|ips| - 1] == items[..|ips| - 1];
    }
  }

  lemma {:induction false} UnmatchedFlat(servers: seq<Server>, records: map<string, Answer>, area: AreaTest, now: nat)
    requires |servers| <= 255
    ensures Unmatched(Flatten(servers, records, area, now)) == Mismatches(servers, records, area)
  {
    if servers != [] {
      var front, last, n := servers[..|servers| - 1], servers[|servers| - 1], |servers|;
      FlattenLast(servers, records, area, now);
      hide ServerId, Flatten, ItemsOf;
      UnmatchedFlat(front, records, area, now);
      UnmatchedAppend(Flatten(front, records, area, now), LastItems(servers, records, area, now));
      if IdOf(last) in records {
        var answer := records[IdOf(last)];
        UnmatchedItems(last, n, answer, answer.ips, area, now);
        ItemsLength(last, n, answer, area, now);
      }
    }
  }

  lemma ItemsLength(server: Server, order: nat, answer: Answer, area: AreaTest, now: nat)
    ensures |ItemsOf(server, order, answer, area, now)| == |answer.ips|
    ensures ItemsOf(server, order, answer, area, now)[..|answer.ips|] == ItemsOf(server, order, answer, area, now)
  {
  }

  /** Without a match the lead stems from the first selected server whose answer has an address. */
  lemma LeadIsFirstAnswer(servers: seq<Server>, records: map<string, Answer>, area: AreaTest, now: nat)
    requires |servers| <= 255 && Flatten(servers, records, area, now) != []
    requires !Lead(Flatten(servers, records, area, now)).matchArea
    ensures Lead(Flatten(servers, records, area, now)).order == FirstAnswer(servers, records, 0) + 1
  {
    hide ServerId;
    var flat, j := Flatten(servers, records, area, now), FirstAnswer(servers, records, 0);
    FlattenIs(servers, records, area, now);
    assert flat[0] in flat && StemsFrom(flat[0], servers, records, area, now);
    assert HasIps(servers[flat[0].order - 1], records);
    var x := ItemOf(records[IdOf(servers[j])].ips[0], servers[j], j + 1, records[IdOf(servers[j])], area, now);
    assert StemsFrom(x, servers, records, area, now);
    var k :| 0 <= k < |flat| && flat[k] == x;
  }

  lemma NothingFlat(servers: seq<Server>, records: map<string, Answer>, area: AreaTest, now: nat)
    requires |servers| <= 255
    ensures Flatten(servers, records, area, now) == [] <==> FirstAnswer(servers, records, 0) == |servers|
  {
    hide ServerId, Flatten;
    var flat, j := Flatten(servers, records, area, now), FirstAnswer(servers, records, 0);
    FlattenIs(servers, records, area, now);
    if flat != [] {
      assert flat[0] in flat && StemsFrom(flat[0], servers, records, area, now);
      assert HasIps(servers[flat[0].order - 1], records);
    }
    if j < |servers| {
      var x := ItemOf(records[IdOf(servers[j])].ips[0], servers[j], j + 1, records[IdOf(servers[j])], area, now);
      assert StemsFrom(x, servers, records, area, now);
    }
  }

  /** The ids of the selected servers whose answers have an address. */
  function Contributors(servers: seq<Server>, records: map<string, Answer>): set<string> {
    set server | server in servers && HasIps(server, records) :: IdOf(server)
  }

  /** The servers that a resolved record names are exactly those. */
  lemma ContributorsAre(servers: seq<Server>, records: map<string, Answer>, area: AreaTest, now: nat)
    requires |servers| <= 255
    ensures (set item | item in Flatten(servers, records, area, now) :: item.server) == Contributors(servers, records)
  {
    hide ServerId, Flatten;
    FlattenIs(servers, records, area, now);
    var flat := Flatten(servers, records, area, now);
    forall id | id in Contributors(servers, records)
      ensures exists item :: item in flat && item.server == id
    {
      var server :| server in servers && HasIps(server, records) && IdOf(server) == id;
      var i :| 0 <= i < |servers| && servers[i] == server;
      var x := ItemOf(records[id].ips[0], server, i + 1, records[id], area, now);
      assert StemsFrom(x, servers, records, area, now);
    }
    forall item | item in flat
      ensures item.server in Contributors(servers, records)
    {
      assert StemsFrom(item, servers, records, area, now);
      assert HasIps(servers[item.order - 1], records);
    }
  }

  lemma LeadIsFirstMatch(servers: seq<Server>, records: map<string, Answer>, area: AreaTest, now: nat)
    requires |servers| <= 255 && DistinctIds(servers) && Flatten(servers, records, area, now) != []
    ensures var flat := Flatten(servers, records, area, now);
            var i := FirstMatch(servers, records, area, 0);
            Lead(flat).matchArea == (i < |servers|) && (i < |servers| ==> Lead(flat).order == i + 1)
  {
    hide ServerId;
    FlattenIs(servers, records, area, now);
    var flat := Flatten(servers, records, area, now);
    var lead, i := Lead(flat), FirstMatch(servers, records, area, 0);
    assert StemsFrom(lead, servers, records, area, now);
    assert lead.matchArea ==> HasMatch(servers[lead.order - 1], records, area);
    if i < |servers| {
      var ip :| ip in records[IdOf(servers[i])].ips && area(servers[i].areas, ip);
      var x := ItemOf(ip, servers[i], i + 1, records[IdOf(servers[i])], area, now);
      assert StemsFrom(x, servers, records, area, now);
      var j :| 0 <= j < |flat| && flat[j] == x;
      assert LeadIndex(flat, 0) <= j;
    }
  }

  lemma MatchingIpsOf(servers: seq<Server>, records: map<string, Answer>, area: AreaTest, now: nat, i: nat)
    requires |servers| <= 255 && DistinctIds(servers) && i < |servers| && IdOf(servers[i]) in records
    ensures MatchingIps(Flatten(servers, records, area, now), IdOf(servers[i])) == TrustedIps(servers[i], records, area)
  {
    hide ServerId, Flatten;
    FlattenIs(servers, records, area, now);
    FlattenIsWellTagged(servers, records, area, now);
    var flat := Flatten(servers, records, area, now);
    forall ip | ip in TrustedIps(servers[i], records, area)
      ensures ip in MatchingIps(flat, IdOf(servers[i]))
    {
      var x := ItemOf(ip, servers[i], i + 1, records[IdOf(servers[i])], area, now);
      assert StemsFrom(x, servers, records, area, now);
      assert x in flat && x.matchArea && x.server == IdOf(servers[i]);
    }
    forall ip | ip in MatchingIps(flat, IdOf(servers[i]))
      ensures ip in TrustedIps(servers[i], records, area)
    {
      var x :| x in flat && x.matchArea && x.server == IdOf(servers[i]) && x.ip == ip;
      assert StemsFrom(x, servers, records, area, now);
      assert IdOf(servers[x.order - 1]) == IdOf(servers[i]);
    }
  }

  lemma AllIpsOf(servers: seq<Server>, records: map<string, Answer>, area: AreaTest, now: nat)
    requires |servers| <= 255
    ensures AllIps(Flatten(servers, records, area, now)) == AnswerIps(servers, records)
  {
    hide ServerId, Flatten;
    FlattenIs(servers, records, area, now);
    var flat := Flatten(servers, records, area, now);
    forall ip | ip in AnswerIps(servers, records)
      ensures ip in AllIps(flat)
    {
      var server :| server in servers && IdOf(server) in records && ip in records[IdOf(server)].ips;
      var i :| 0 <= i < |servers| && servers[i] == server;
      var x := ItemOf(ip, server, i + 1, records[IdOf(server)], area, now);
      assert StemsFrom(x, servers, records, area, now);
    }
    forall ip | ip in AllIps(flat)
      ensures ip in AnswerIps(servers, records)
    {
      var x :| x in flat && x.ip == ip;
      assert StemsFrom(x, servers, records, area, now);
      assert servers[x.order - 1] in servers;
    }
  }

  /**
   * For every sorted permutation: if any address matches its server's areas, the distinct matching addresses of the
   * first selected server that has one, all counted as trusted; otherwise the distinct union of all selected servers'
   * addresses, none trusted. Server, expiry second and expire flag are those of the first match or else of the first
   * answer with an address.
   */
  lemma ResolveDelivers(servers: seq<Server>, records: map<string, Answer>, area: AreaTest, now: nat,
                        s: seq<IpRecord>)
    requires |servers| <= 255 && DistinctIds(servers) && IsSortOf(s, Flatten(servers, records, area, now))
    ensures Delivered(Summarize(s), servers, records, area, now)
  {
    hide ServerId, Flatten, StemsFrom, LeadIs, Lead, AnswerIps, TrustedIps, MatchingIps, AllIps, SameSet;
    var flat := Flatten(servers, records, area, now);
    SameMembers(s, flat);
    AllIpsOf(servers, records, area, now);
    NothingFlat(servers, records, area, now);
    UnmatchedFlat(servers, records, area, now);
    if flat == [] {
      NothingMatches(servers, records, area, now);
    } else {
      FlattenIs(servers, records, area, now);
      FlattenIsWellTagged(servers, records, area, now);
      EverySortResolves(s, flat);
      LeadIsFirstMatch(servers, records, area, now);
      var i := FirstMatch(servers, records, area, 0);
      LeadOfServer(Summarize(s), servers, records, area, now, Lead(flat));
      if i < |servers| {
        MatchingIpsOf(servers, records, area, now, i);
      } else {
        LeadIsFirstAnswer(servers, records, area, now);
      }
    }
  }

  lemma LeadOfServer(r: Summary, servers: seq<Server>, records: map<string, Answer>, area: AreaTest, now: nat,
                     lead: IpRecord)
    requires StemsFrom(lead, servers, records, area, now)
    requires r.server == lead.server && r.expireTime == lead.expireTime && r.expire == lead.expire
    ensures 1 <= lead.order <= |servers| && LeadIs(r, servers[lead.order - 1], records, now)
    ensures lead.server == IdOf(servers[lead.order - 1])
  {
  }

  lemma NothingMatches(servers: seq<Server>, records: map<string, Answer>, area: AreaTest, now: nat)
    requires |servers| <= 255 && Flatten(servers, records, area, now) == []
    ensures FirstMatch(servers, records, area, 0) == |servers|
  {
    hide HasMatch, Flatten;
    var i := FirstMatch(servers, records, area, 0);
    if i < |servers| {
      MatchIsFlattened(servers, records, area, now, i);
    }
  }

  lemma MatchIsFlattened(servers: seq<Server>, records: map<string, Answer>, area: AreaTest, now: nat, i: nat)
    requires |servers| <= 255 && i < |servers| && HasMatch(servers[i], records, area)
    ensures Flatten(servers, records, area, now) != []
  {
    hide ServerId, Flatten;
    FlattenIs(servers, records, area, now);
    var ip :| ip in records[IdOf(servers[i])].ips && area(servers[i].areas, ip);
    var x := ItemOf(ip, servers[i], i + 1, records[IdOf(servers[i])], area, now);
    assert StemsFrom(x, servers, records, area, now);
  }
}
