/** The fan-in of multi-area queries: callbacks count answers and the last one delivers their union. */
module FanIn {
  import opened Bytes
  import opened Sequences

  /** What the completion handler receives. */
  datatype Delivery = Delivery(ips: seq<nat>, loadAll: bool)

  /** The two clients differ in the test that ends the fan-in and in the order of the delivered list. */
  datatype Protocol = Tcp | Tls

  function Elements(ips: seq<nat>): set<nat> {
    set ip | ip in ips
  }

  function Union(answers: seq<seq<nat>>): set<nat> {
    if answers == [] then {} else Union(answers[..|answers| - 1]) + Elements(answers[|answers| - 1])
  }

  predicate NoneEmpty(answers: seq<seq<nat>>) {
    forall a :: a in answers ==> a != []
  }

  lemma NoneEmptyNext(answers: seq<seq<nat>>, i: nat)
    requires i < |answers|
    ensures NoneEmpty(answers[..i + 1]) == (NoneEmpty(answers[..i]) && answers[i] != [])
  {
    assert answers[..i + 1] == answers[..i] + [answers[i]];
    assert answers[i] in answers[..i + 1];
    assert forall a :: a in answers[..i] ==> a in answers[..i + 1];
  }

  /** `counter == areas.size()` for TCP, `>=` for TLS. */
  predicate Ends(p: Protocol, counter: nat, areas: nat) {
    if p.Tcp? then counter == areas else counter >= areas
  }

  predicate StrictlyIncreasing(s: seq<nat>) {
    forall i, j :: 0 <= i < j < |s| ==> s[i] < s[j]
  }

  /** A `std::set` is listed in increasing order, an `unordered_set` in some order. */
  predicate Lists(p: Protocol, ips: seq<nat>, result: set<nat>) {
    Elements(ips) == result && if p.Tcp? then StrictlyIncreasing(ips) else NoDuplicates(ips)
  }

  // ----- The aggregator object -----

  /** The state shared by the callbacks; the counter has 16 bits. */
  class Aggregator {
    const protocol: Protocol
    const areas: nat
    var counter: nat
    var loadAll: bool
    var result: set<nat>
    var fired: seq<Delivery>

    constructor (protocol: Protocol, areas: nat)
      ensures this.protocol == protocol && this.areas == areas
      ensures counter == 0 && loadAll && result == {} && fired == []
    {
      this.protocol, this.areas := protocol, areas;
      counter, loadAll, result, fired := 0, true, {}, [];
    }

    /** The callback of one area's query. */
    method OnAnswer(ips: seq<nat>)
      modifies this
      ensures counter == (old(counter) + 1) % TWO_TO_THE_16
      ensures loadAll == (old(loadAll) && ips != []) && result == old(result) + Elements(ips)
      ensures if Ends(protocol, counter, areas)
              then |fired| == |old(fired)| + 1 && fired[..|old(fired)|] == old(fired) &&
                   Lists(protocol, fired[|old(fired)|].ips, result) && fired[|old(fired)|].loadAll == loadAll
              else fired == old(fired)
    {
      counter := (counter + 1) % TWO_TO_THE_16;
      if |ips| == 0 {
        loadAll := false;
      }
      var before := result;
      for i := 0 to |ips|
        invariant result == before + Elements(ips[..i])
        invariant counter == (old(counter) + 1) % TWO_TO_THE_16 && fired == old(fired)
        invariant loadAll == (old(loadAll) && ips != [])
      {
        assert Elements(ips[..i + 1]) == Elements(ips[..i]) + {ips[i]};
        result := result + {ips[i]};
      }
      assert ips[..|ips|] == ips;
      if Ends(protocol, counter, areas) {
        var list := ListOf(result);
        fired := fired + [Delivery(list, loadAll)];
      }
    }

    /** Delivers the answers in the order in which they arrive; `fires` counts the handler calls after each one. */
    method Run(answers: seq<seq<nat>>) returns (ghost fires: seq<nat>)
      requires counter == 0 && loadAll && result == {} && fired == []
      requires 2 <= areas == |answers|
      modifies this
      ensures |fires| == |answers| && |fired| == fires[|answers| - 1]
      ensures forall i :: 0 <= i < |answers| - 1 ==> fires[i] == 0
      ensures fires[|answers| - 1] == if |answers| < TWO_TO_THE_16 then 1 else 0
      ensures |answers| < TWO_TO_THE_16 ==>
                Lists(protocol, fired[0].ips, Union(answers)) && fired[0].loadAll == NoneEmpty(answers)
    {
      fires := [];
      for i := 0 to |answers|
        invariant counter == i % TWO_TO_THE_16 && result == Union(answers[..i]) && loadAll == NoneEmpty(answers[..i])
        invariant if i == |answers| && i < TWO_TO_THE_16
                  then |fired| == 1 && Lists(protocol, fired[0].ips, result) && fired[0].loadAll == loadAll
                  else fired == []
        invariant |fires| == i && (i > 0 ==> fires[i - 1] == |fired|)
        invariant forall k :: 0 <= k < i && k < |answers| - 1 ==> fires[k] == 0
      {
        assert answers[..i + 1][..i] == answers[..i];
        NoneEmptyNext(answers, i);
        OnAnswer(answers[i]);
        fires := fires + [|fired|];
      }
      assert answers[..|answers|] == answers;
    }
  }

  predicate IsLeast(s: set<nat>, x: nat) {
    x in s && forall y :: y in s ==> x <= y
  }

  lemma {:induction false} LeastExists(s: set<nat>) returns (least: nat)
    requires s != {}
    ensures IsLeast(s, least)
    decreases |s|
  {
    var x :| x in s;
    var rest := s - {x};
    assert forall y :: y in s ==> y == x || y in rest;
    if rest == {} {
      least := x;
    } else {
      var other := LeastExists(rest);
      least := if x < other then x else other;
    }
  }

  lemma ExtendList(list: seq<nat>, x: nat)
    requires StrictlyIncreasing(list) && forall y :: y in list ==> y < x
    ensures StrictlyIncreasing(list + [x]) && Elements(list + [x]) == Elements(list) + {x}
  {
    forall i | 0 <= i < |list|
      ensures list[i] < x
    {
      assert list[i] in list;
    }
    assert forall y :: y in list + [x] ==> y in list || y == x;
  }

  /** The elements of a set, smallest first. */
  method ListOf(s: set<nat>) returns (list: seq<nat>)
    ensures Elements(list) == s && StrictlyIncreasing(list)
  {
    list := [];
    var rest := s;
    while rest != {}
      invariant Elements(list) + rest == s && StrictlyIncreasing(list)
      invariant forall x, y :: x in list && y in rest ==> x < y
      decreases rest
    {
      ghost var some := LeastExists(rest);
      var least :| least in rest && forall y :: y in rest ==> least <= y;
      ExtendList(list, least);
      list := list + [least];
      rest := rest - {least};
    }
  }

  // ----- Independence of the arrival order -----

  lemma {:induction false} UnionIs(answers: seq<seq<nat>>)
    ensures forall ip :: ip in Union(answers) <==> exists a :: a in answers && ip in a
  {
    if answers != [] {
      var front, last := answers[..|answers| - 1], answers[|answers| - 1];
      UnionIs(front);
      assert answers == front + [last];
    }
  }

  /** Union and completeness depend only on which answers came, not on their order. */
  lemma OrderDoesNotMatter(a: seq<seq<nat>>, b: seq<seq<nat>>)
    requires multiset(a) == multiset(b)
    ensures Union(a) == Union(b) && NoneEmpty(a) == NoneEmpty(b)
  {
    assert forall x :: x in a <==> x in multiset(a);
    assert forall x :: x in b <==> x in multiset(b);
    UnionIs(a);
    UnionIs(b);
  }

  /** There is only one strictly increasing list of a set. */
  lemma {:induction false} SortedListIsUnique(a: seq<nat>, b: seq<nat>)
    requires StrictlyIncreasing(a) && StrictlyIncreasing(b) && Elements(a) == Elements(b)
    ensures a == b
  {
    HeadIsElement(b);
    if a != [] {
      var x := a[|a| - 1];
      assert x in Elements(b);
      LastIsGreatest(a);
      LastIsGreatest(b);
      assert b[|b| - 1] in Elements(a);
      ElementsWithoutLast(a);
      ElementsWithoutLast(b);
      SortedListIsUnique(a[..|a| - 1], b[..|b| - 1]);
      assert a == a[..|a| - 1] + [x] && b == b[..|b| - 1] + [b[|b| - 1]];
    }
  }

  lemma HeadIsElement(s: seq<nat>)
    ensures s != [] ==> s[0] in Elements(s)
  {
  }

  lemma LastIsGreatest(s: seq<nat>)
    requires StrictlyIncreasing(s)
    ensures forall x :: x in Elements(s) ==> s != [] && x <= s[|s| - 1]
  {
  }

  lemma ElementsWithoutLast(s: seq<nat>)
    requires s != [] && StrictlyIncreasing(s)
    ensures Elements(s[..|s| - 1]) == Elements(s) - {s[|s| - 1]}
  {
    assert s == s[..|s| - 1] + [s[|s| - 1]];
  }

  /** Over TCP every arrival order of the same answers delivers the same list and flag. */
  lemma TcpDeliversSameList(a: seq<seq<nat>>, b: seq<seq<nat>>, first: Delivery, second: Delivery)
    requires multiset(a) == multiset(b)
    requires Lists(Tcp, first.ips, Union(a)) && first.loadAll == NoneEmpty(a)
    requires Lists(Tcp, second.ips, Union(b)) && second.loadAll == NoneEmpty(b)
    ensures first == second
  {
    OrderDoesNotMatter(a, b);
    SortedListIsUnique(first.ips, second.ips);
  }

  // ----- Every step of a run -----

  /** The counter after `i` callbacks. */
  function CounterAfter(i: nat): nat {
    i % TWO_TO_THE_16
  }

  /**
   * During the first `n` callbacks of an `n`-area query the end test holds on the last one and on no other, exactly
   * for `n` up to 65535; from 65536 areas on it never holds.
   */
  lemma FiresOnLastOnlyIff(p: Protocol, n: nat)
    requires n >= 2
    ensures (Ends(p, CounterAfter(n), n) && forall i :: 1 <= i < n ==> !Ends(p, CounterAfter(i), n)) <==>
            n < TWO_TO_THE_16
    ensures n >= TWO_TO_THE_16 ==> forall i :: 1 <= i <= n ==> !Ends(p, CounterAfter(i), n)
  {
  }
}
