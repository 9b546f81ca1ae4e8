/**
 * The forward store (domain to the answers of its servers) and the reverse index (address to domains). Both are kept
 * without expiry, so each store is a plain map.
 */
module RecordStore {
  import opened Bytes
  import opened Sequences

  /** One server's answer: when it expires (32 bits) and its addresses. */
  datatype Answer = Answer(expire: nat, ips: seq<nat>)

  type Forward = map<string, map<string, Answer>>

  type Reverse = map<nat, seq<string>>

  datatype Stores = Stores(forward: Forward, reverse: Reverse)

  /** `get_dns_records_pb`: the answers stored for a domain, none if there is no record. */
  function RecordsOf(forward: Forward, domain: string): map<string, Answer> {
    if domain in forward then forward[domain] else map[]
  }

  /** `reverse_resolve`. */
  function DomainsOf(reverse: Reverse, ip: nat): seq<string> {
    if ip in reverse then reverse[ip] else []
  }

  function StampedAnswer(ips: seq<nat>, expire: nat, now: nat): Answer {
    Answer((expire + now) % TWO_TO_THE_32, ips)
  }

  function AfterAdd(forward: Forward, domain: string, server: string, answer: Answer): Forward {
    forward[domain := RecordsOf(forward, domain)[server := answer]]
  }

  /** `add_reverse_record`. */
  function AfterAddReverse(reverse: Reverse, ip: nat, domain: string): Reverse {
    if domain in DomainsOf(reverse, ip) then reverse else reverse[ip := DomainsOf(reverse, ip) + [domain]]
  }

  function AfterAddReverses(reverse: Reverse, ips: seq<nat>, domain: string): Reverse
    decreases |ips|
  {
    if ips == [] then reverse else AfterAddReverses(AfterAddReverse(reverse, ips[0], domain), ips[1..], domain)
  }

  // ----- Every store write of every call -----

  /** `Clear` erases the domains in the order in which the database iterates over them. */
  datatype Call = Add(domain: string, server: string, answer: Answer)
                | Remove(domain: string)
                | Clear(order: seq<string>)

  /** The states after each write of the reverse loop of `add`. */
  function ReverseWrites(s: Stores, ips: seq<nat>, domain: string): seq<Stores>
    decreases |ips|
  {
    if ips == [] then []
    else if domain in DomainsOf(s.reverse, ips[0]) then ReverseWrites(s, ips[1..], domain)
    else
      var next := s.(reverse := AfterAddReverse(s.reverse, ips[0], domain));
      [next] + ReverseWrites(next, ips[1..], domain)
  }

  function EraseWrites(s: Stores, order: seq<string>): seq<Stores>
    decreases |order|
  {
    if order == [] then []
    else
      var next := s.(forward := s.forward - {order[0]});
      [next] + EraseWrites(next, order[1..])
  }

  /** The states after each single store write of a call. */
  function Writes(s: Stores, call: Call): seq<Stores> {
    match call
    case Add(domain, server, answer) => ReverseWrites(s, answer.ips, domain) + [After(s, call)]
    case Remove(domain) => [After(s, call)]
    case Clear(order) => EraseWrites(s, order)
  }

  function ErasedAll(forward: Forward, order: seq<string>): Forward
    decreases |order|
  {
    if order == [] then forward else ErasedAll(forward - {order[0]}, order[1..])
  }

  function After(s: Stores, call: Call): Stores {
    match call
    case Add(domain, server, answer) =>
      Stores(AfterAdd(s.forward, domain, server, answer), AfterAddReverses(s.reverse, answer.ips, domain))
    case Remove(domain) => s.(forward := s.forward - {domain})
    case Clear(order) => s.(forward := ErasedAll(s.forward, order))
  }

  /** The states after each store write of a run of serialized calls. */
  function RunWrites(s: Stores, calls: seq<Call>): seq<Stores>
    decreases |calls|
  {
    if calls == [] then [] else Writes(s, calls[0]) + RunWrites(After(s, calls[0]), calls[1..])
  }

  // ----- The index invariant -----

  /** Each address in a forward record lists that record's domain in the reverse index. */
  ghost predicate Indexed(s: Stores) {
    forall domain, server, ip ::
      domain in s.forward && server in s.forward[domain] && ip in s.forward[domain][server].ips ==>
      domain in DomainsOf(s.reverse, ip)
  }

  ghost predicate Sound(s: Stores) {
    Indexed(s) && forall ip :: ip in s.reverse ==> NoDuplicates(s.reverse[ip])
  }

  lemma AddReverseKeepsSound(s: Stores, ip: nat, domain: string)
    requires Sound(s)
    ensures var r := AfterAddReverse(s.reverse, ip, domain);
            Sound(s.(reverse := r)) && domain in DomainsOf(r, ip) &&
            forall other, d :: d in DomainsOf(s.reverse, other) ==> d in DomainsOf(r, other)
  {
    var r := AfterAddReverse(s.reverse, ip, domain);
    assert forall other :: other in r && other != ip ==> other in s.reverse && r[other] == s.reverse[other];
    assert ip in r ==> NoDuplicates(r[ip]) by {
      assert ip in s.reverse ==> NoDuplicates(s.reverse[ip]);
    }
    assert forall other, d :: d in DomainsOf(s.reverse, other) ==> d in DomainsOf(r, other);
  }

  /** The reverse loop of `add` stays sound after every write and ends with every address indexed. */
  lemma {:induction false} ReverseWritesSound(s: Stores, ips: seq<nat>, domain: string)
    requires Sound(s)
    ensures forall t :: t in ReverseWrites(s, ips, domain) ==> Sound(t)
    ensures var r := AfterAddReverses(s.reverse, ips, domain);
            Sound(s.(reverse := r)) && (forall ip :: ip in ips ==> domain in DomainsOf(r, ip)) &&
            forall other, d :: d in DomainsOf(s.reverse, other) ==> d in DomainsOf(r, other)
    decreases |ips|
  {
    hide DomainsOf, Sound;
    if ips != [] {
      var next := s.(reverse := AfterAddReverse(s.reverse, ips[0], domain));
      AddReverseKeepsSound(s, ips[0], domain);
      ReverseWritesSound(next, ips[1..], domain);
      assert s.(reverse := AfterAddReverses(s.reverse, ips, domain)) ==
             next.(reverse := AfterAddReverses(next.reverse, ips[1..], domain));
      assert ips == [ips[0]] + ips[1..];
    }
  }

  lemma AddForwardKeepsSound(s: Stores, domain: string, server: string, answer: Answer)
    requires Sound(s) && forall ip :: ip in answer.ips ==> domain in DomainsOf(s.reverse, ip)
    ensures Sound(s.(forward := AfterAdd(s.forward, domain, server, answer)))
  {
  }

  lemma EraseKeepsSound(s: Stores, domain: string)
    requires Sound(s)
    ensures Sound(s.(forward := s.forward - {domain}))
  {
  }

  lemma {:induction false} EraseWritesSound(s: Stores, order: seq<string>)
    requires Sound(s)
    ensures forall t :: t in EraseWrites(s, order) ==> Sound(t)
    ensures Sound(s.(forward := ErasedAll(s.forward, order)))
    decreases |order|
  {
    hide Sound;
    if order != [] {
      var next := s.(forward := s.forward - {order[0]});
      EraseKeepsSound(s, order[0]);
      EraseWritesSound(next, order[1..]);
      assert s.(forward := ErasedAll(s.forward, order)) == next.(forward := ErasedAll(next.forward, order[1..]));
    }
  }

  /** Every single write of a call, and the call as a whole, keeps the index sound. */
  lemma CallKeepsSound(s: Stores, call: Call)
    requires Sound(s)
    ensures forall t :: t in Writes(s, call) ==> Sound(t)
    ensures Sound(After(s, call))
  {
    hide Sound;
    match call
    case Add(domain, server, answer) =>
      ReverseWritesSound(s, answer.ips, domain);
      AddForwardKeepsSound(s.(reverse := AfterAddReverses(s.reverse, answer.ips, domain)), domain, server, answer);
    case Remove(domain) =>
      EraseKeepsSound(s, domain);
    case Clear(order) =>
      EraseWritesSound(s, order);
  }

  /**
   * After every single store write of any run of calls, each address in a forward record lists that record's domain
   * in the reverse index, and no reverse list has duplicates.
   */
  lemma {:induction false} RunKeepsSound(s: Stores, calls: seq<Call>)
    requires Sound(s)
    ensures forall t :: t in RunWrites(s, calls) ==> Sound(t)
    decreases |calls|
  {
    if calls != [] {
      hide Sound;
      CallKeepsSound(s, calls[0]);
      RunKeepsSound(After(s, calls[0]), calls[1..]);
    }
  }

  // ----- What a call changes -----

  /** The answer stored for a domain and a server. */
  function Found(forward: Forward, domain: string, server: string): Option<Answer> {
    if domain in forward && server in forward[domain] then Some(forward[domain][server]) else None
  }

  /** `add` stores the addresses until `expire` seconds from now, in 32 bits, and changes no other answer. */
  lemma AddedAnswer(s: Stores, domain: string, server: string, ips: seq<nat>, expire: nat, now: nat)
    ensures var after := After(s, Add(domain, server, StampedAnswer(ips, expire, now))).forward;
            Found(after, domain, server).Some? && Found(after, domain, server).value.ips == ips &&
            (expire + now < TWO_TO_THE_32 ==> Found(after, domain, server).value.expire == expire + now) &&
            (exists wraps: nat :: Found(after, domain, server).value.expire + wraps * TWO_TO_THE_32 == expire + now) &&
            Found(after, domain, server).value.expire < TWO_TO_THE_32 &&
            forall d, s' :: d != domain || s' != server ==> Found(after, d, s') == Found(s.forward, d, s')
  {
    var wraps := (expire + now) / TWO_TO_THE_32;
    assert StampedAnswer(ips, expire, now).expire + wraps * TWO_TO_THE_32 == expire + now;
  }

  /** After `remove` the domain has no answer; all others are as before, and so is the reverse index. */
  lemma RemovedDomain(s: Stores, domain: string)
    ensures var after := After(s, Remove(domain));
            after.reverse == s.reverse &&
            forall d, server ::
              Found(after.forward, d, server) == if d == domain then None else Found(s.forward, d, server)
  {
  }

  /** `clear` leaves exactly the answers of domains it did not come by. */
  lemma {:induction false} ClearedDomains(s: Stores, order: seq<string>)
    ensures var after := After(s, Clear(order));
            after.reverse == s.reverse &&
            forall d, server ::
              Found(after.forward, d, server) == if d in order then None else Found(s.forward, d, server)
    decreases |order|
  {
    if order != [] {
      var next := s.(forward := s.forward - {order[0]});
      ClearedDomains(next, order[1..]);
      assert After(s, Clear(order)).forward == After(next, Clear(order[1..])).forward;
      assert order == [order[0]] + order[1..];
    }
  }

  /** One reverse write appends the domain if it is missing and changes no other list. */
  lemma ReverseAppends(reverse: Reverse, ip: nat, domain: string)
    ensures var r := AfterAddReverse(reverse, ip, domain);
            DomainsOf(r, ip) == (if domain in DomainsOf(reverse, ip) then DomainsOf(reverse, ip)
                                 else DomainsOf(reverse, ip) + [domain]) &&
            forall other :: other != ip ==> DomainsOf(r, other) == DomainsOf(reverse, other)
  {
  }

  /** `add` appends its domain to the lists of exactly the answer's addresses that miss it. */
  lemma {:induction false} ReverseAfterAdd(reverse: Reverse, ips: seq<nat>, domain: string, ip: nat)
    ensures DomainsOf(AfterAddReverses(reverse, ips, domain), ip) ==
            if ip in ips && domain !in DomainsOf(reverse, ip) then DomainsOf(reverse, ip) + [domain]
            else DomainsOf(reverse, ip)
    decreases |ips|
  {
    if ips != [] {
      hide DomainsOf, AfterAddReverse;
      ReverseAppends(reverse, ips[0], domain);
      ReverseAfterAdd(AfterAddReverse(reverse, ips[0], domain), ips[1..], domain, ip);
      assert ips == [ips[0]] + ips[1..];
    }
  }

  // ----- The record manager -----

  class RecordManager {
    var forward: Forward
    var reverse: Reverse
    /** The states after each store write so far. */
    ghost var log: seq<Stores>

    constructor ()
      ensures Abs() == Stores(map[], map[]) && log == []
    {
      forward, reverse, log := map[], map[], [];
    }

    ghost function Abs(): Stores
      reads this
    {
      Stores(forward, reverse)
    }

    method PutForward(domain: string, records: map<string, Answer>)
      modifies this
      ensures forward == old(forward)[domain := records] && reverse == old(reverse) && log == old(log) + [Abs()]
    {
      forward := forward[domain := records];
      log := log + [Abs()];
    }

    method EraseForward(domain: string)
      modifies this
      ensures forward == old(forward) - {domain} && reverse == old(reverse) && log == old(log) + [Abs()]
    {
      forward := forward - {domain};
      log := log + [Abs()];
    }

    method AddReverse(ip: nat, domain: string)
      modifies this
      ensures forward == old(forward) && reverse == AfterAddReverse(old(reverse), ip, domain)
      ensures log == if domain in DomainsOf(old(reverse), ip) then old(log) else old(log) + [Abs()]
    {
      var domains := DomainsOf(reverse, ip);
      if domain !in domains {
        reverse := reverse[ip := domains + [domain]];
        log := log + [Abs()];
      }
    }

    /** `add`: reads the record, indexes every address, then writes the record with the new answer. */
    method DoAdd(domain: string, ips: seq<nat>, server: string, expire: nat, now: nat)
      modifies this
      ensures var call := Add(domain, server, StampedAnswer(ips, expire, now));
              Abs() == After(old(Abs()), call) && log == old(log) + Writes(old(Abs()), call)
      ensures Found(forward, domain, server).Some? && Found(forward, domain, server).value.ips == ips
      ensures expire + now < TWO_TO_THE_32 ==> Found(forward, domain, server).value.expire == expire + now
    {
      var records := RecordsOf(forward, domain);
      var answer := StampedAnswer(ips, expire, now);
      ghost var start := Abs();
      for i := 0 to |ips|
        invariant forward == old(forward)
        invariant AfterAddReverses(start.reverse, ips, domain) == AfterAddReverses(reverse, ips[i..], domain)
        invariant old(log) + ReverseWrites(start, ips, domain) == log + ReverseWrites(Abs(), ips[i..], domain)
      {
        assert ips[i..][0] == ips[i] && ips[i..][1..] == ips[i + 1..];
        ghost var before, written := Abs(), log;
        AddReverse(ips[i], domain);
        WriteStep(before, Abs(), written, log, ips[i..], domain);
      }
      assert ips[|ips|..] == [] && log + [] == log;
      ghost var indexed := ReverseWrites(start, ips, domain);
      assert log == old(log) + indexed;
      AddedAnswer(start, domain, server, ips, expire, now);
      records := records[server := answer];
      PutForward(domain, records);
      assert Abs() == After(start, Add(domain, server, answer));
      assert old(log) + indexed + [Abs()] == old(log) + (indexed + [Abs()]);
    }

    method DoRemove(domain: string)
      modifies this
      ensures Abs() == After(old(Abs()), Remove(domain)) && log == old(log) + Writes(old(Abs()), Remove(domain))
    {
      ghost var start := Abs();
      EraseForward(domain);
      assert Abs() == After(start, Remove(domain));
    }

    /** `clear`: erases the domains of a snapshot one by one; `order` is the order the database chose. */
    method DoClear() returns (ghost order: seq<string>)
      modifies this
      ensures Abs() == After(old(Abs()), Clear(order)) && log == old(log) + Writes(old(Abs()), Clear(order))
      ensures forward == map[]
    {
      var keys := forward.Keys;
      order := [];
      ghost var start := Abs();
      while keys != {}
        invariant forward.Keys == keys && reverse == old(reverse)
        invariant forward == ErasedAll(start.forward, order)
        invariant log == old(log) + EraseWrites(start, order)
        decreases keys
      {
        var key :| key in keys;
        EraseNext(start, order, key);
        EraseForward(key);
        order := order + [key];
        keys := keys - {key};
      }
      assert forward.Keys == {};
    }
  }

  lemma WriteStep(before: Stores, after: Stores, log: seq<Stores>, longer: seq<Stores>, ips: seq<nat>, domain: string)
    requires ips != [] && after == before.(reverse := AfterAddReverse(before.reverse, ips[0], domain))
    requires longer == if domain in DomainsOf(before.reverse, ips[0]) then log else log + [after]
    ensures log + ReverseWrites(before, ips, domain) == longer + ReverseWrites(after, ips[1..], domain)
  {
    hide DomainsOf;
    if domain in DomainsOf(before.reverse, ips[0]) {
      assert after == before;
    } else {
      assert log + ([after] + ReverseWrites(after, ips[1..], domain)) ==
             log + [after] + ReverseWrites(after, ips[1..], domain);
    }
  }

  lemma {:induction false} EraseNext(s: Stores, order: seq<string>, key: string)
    ensures ErasedAll(s.forward, order + [key]) == ErasedAll(s.forward, order) - {key}
    ensures EraseWrites(s, order + [key]) ==
            EraseWrites(s, order) + [s.(forward := ErasedAll(s.forward, order + [key]))]
    decreases |order|
  {
    if order == [] {
      assert order + [key] == [key] && [key][1..] == [];
    } else {
      var next := s.(forward := s.forward - {order[0]});
      EraseNext(next, order[1..], key);
      assert (order + [key])[1..] == order[1..] + [key] && (order + [key])[0] == order[0];
    }
  }
}
