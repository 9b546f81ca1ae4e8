/**
 * Pacing of network lookups: at most one outstanding per address, spaced by a third of a second. Times are
 * milliseconds.
 */
module LookupPacing {
  import opened Bytes

  const NET_QPS := 3
  const SPACING := 1000 / NET_QPS

  /** `times` logs the scheduled times; `outstanding` counts the lookups scheduled and not finished, by address. */
  datatype State = State(ips: set<nat>, last: nat, times: seq<nat>, outstanding: multiset<nat>)

  /** A request reads the clock; a lookup that was scheduled finishes once. */
  datatype Event = Request(ip: nat, now: nat) | Finish(ip: nat)

  function NextTime(last: nat, now: nat): (time: nat)
    ensures time >= last + 333 && time >= now + 333 && (time == last + 333 || time == now + 333)
  {
    if last <= now then now + SPACING else last + SPACING
  }

  predicate Step(s: State, e: Event, s': State) {
    match e
    case Request(ip, now) =>
      if ip in s.ips then s' == s
      else
        var time := NextTime(s.last, now);
        s' == State(s.ips + {ip}, time, s.times + [time], s.outstanding + multiset{ip})
    case Finish(ip) =>
      ip in s.outstanding && s' == s.(ips := s.ips - {ip}, outstanding := s.outstanding - multiset{ip})
  }

  ghost predicate Run(states: seq<State>, events: seq<Event>) {
    |states| == |events| + 1 && (exists start :: states[0] == State({}, start, [], multiset{})) &&
    forall i :: 0 <= i < |events| ==> Step(states[i], events[i], states[i + 1])
  }

  /** Scheduled times lie at least one spacing apart, and the addresses in flight have one lookup each. */
  ghost predicate Inv(s: State) {
    (forall i :: 0 < i < |s.times| ==> s.times[i - 1] + SPACING <= s.times[i]) &&
    (s.times != [] ==> s.times[|s.times| - 1] == s.last) &&
    forall ip :: s.outstanding[ip] == if ip in s.ips then 1 else 0
  }

  lemma StepKeepsInv(s: State, e: Event, s': State)
    requires Inv(s) && Step(s, e, s')
    ensures Inv(s')
  {
  }

  /** For every sequence of requests and any clock readings the invariant holds. */
  lemma {:induction false} RunKeepsInv(states: seq<State>, events: seq<Event>, i: nat)
    requires Run(states, events) && i <= |events|
    ensures Inv(states[i])
  {
    if i > 0 {
      RunKeepsInv(states, events, i - 1);
      StepKeepsInv(states[i - 1], events[i - 1], states[i]);
    }
  }

  /** No address ever has two lookups outstanding. */
  lemma NoTwoOutstanding(states: seq<State>, events: seq<Event>, i: nat, ip: nat)
    requires Run(states, events) && i <= |events|
    ensures states[i].outstanding[ip] <= 1
  {
    RunKeepsInv(states, events, i);
  }

  /** How many of the times lie in the window of `width` from `t` on. */
  function CountIn(times: seq<nat>, t: int, width: nat): nat {
    if times == [] then 0
    else CountIn(times[..|times| - 1], t, width) + if t <= times[|times| - 1] < t + width then 1 else 0
  }

  lemma {:induction false} WindowBound(times: seq<nat>, t: int, width: nat)
    requires forall i :: 0 < i < |times| ==> times[i - 1] + SPACING <= times[i]
    ensures times == [] || times[|times| - 1] < t ==> CountIn(times, t, width) == 0
    ensures times != [] && t <= times[|times| - 1] ==>
              SPACING * CountIn(times, t, width) <= times[|times| - 1] - t + SPACING
    ensures width > 0 ==> SPACING * CountIn(times, t, width) <= width + SPACING - 1
  {
    assert SPACING == 333;
    if times != [] {
      WindowBound(times[..|times| - 1], t, width);
    }
  }

  /** Any window of T > 0 ms of any run holds at most ceil(T / 333) scheduled lookups. */
  lemma LookupRate(states: seq<State>, events: seq<Event>, i: nat, t: int, width: nat)
    requires Run(states, events) && i <= |events| && width > 0
    ensures CountIn(states[i].times, t, width) <= (width + SPACING - 1) / SPACING
  {
    RunKeepsInv(states, events, i);
    WindowBound(states[i].times, t, width);
    QuotientBound(CountIn(states[i].times, t, width), width + SPACING - 1);
  }

  lemma QuotientBound(count: nat, x: nat)
    requires SPACING * count <= x
    ensures count <= x / SPACING
  {
    assert SPACING == 333;
  }

  /** No clock reading so far was above `limit`. */
  ghost predicate ReadUpTo(events: seq<Event>, n: nat, limit: nat)
    requires n <= |events|
  {
    forall i :: 0 <= i < n && events[i].Request? ==> events[i].now <= limit
  }

  /**
   * Lookups are not put off longer than their spacing demands: with the clock never above `limit`, the last one is
   * scheduled at most a spacing a lookup behind it.
   */
  lemma {:induction false} BacklogBound(states: seq<State>, events: seq<Event>, i: nat, limit: nat)
    requires Run(states, events) && i <= |events| && ReadUpTo(events, i, limit) && states[0].last <= limit
    ensures states[i].last <= limit + 333 * |states[i].times|
  {
    if i > 0 {
      BacklogBound(states, events, i - 1, limit);
      assert Step(states[i - 1], events[i - 1], states[i]);
    }
  }

  /** A request schedules a lookup exactly when none is outstanding for its address. */
  lemma ScheduledIff(states: seq<State>, events: seq<Event>, i: nat)
    requires Run(states, events) && i < |events| && events[i].Request?
    ensures |states[i + 1].times| == |states[i].times| + (if events[i].ip in states[i].outstanding then 0 else 1)
    ensures events[i].ip in states[i + 1].outstanding
  {
    RunKeepsInv(states, events, i);
    RunKeepsInv(states, events, i + 1);
    assert Step(states[i], events[i], states[i + 1]);
  }

  class Pacer {
    var ips: set<nat>
    var last: nat
    ghost var times: seq<nat>
    ghost var outstanding: multiset<nat>

    constructor (now: nat)
      ensures Abs() == State({}, now, [], multiset{}) && Valid()
    {
      ips, last, times, outstanding := {}, now, [], multiset{};
    }

    ghost function Abs(): State
      reads this
    {
      State(ips, last, times, outstanding)
    }

    ghost predicate Valid()
      reads this
    {
      Inv(Abs())
    }

    /** `async_load_ip_info_from_net`: the time at which the lookup is scheduled, if it is. */
    method DoRequest(ip: nat, now: nat) returns (time: Option<nat>)
      requires Valid()
      modifies this
      ensures Valid() && Step(old(Abs()), Request(ip, now), Abs())
      ensures time == if ip in old(ips) then None else Some(last)
      ensures time.Some? ==> time.value > now
    {
      if ip !in ips {
        ips := ips + {ip};
        if last <= now {
          last := now + 1000 / NET_QPS;
        } else {
          last := last + 1000 / NET_QPS;
        }
        times := times + [last];
        outstanding := outstanding + multiset{ip};
        return Some(last);
      }
      return None;
    }

    /** The end of a lookup. */
    method DoFinish(ip: nat)
      requires Valid() && ip in outstanding
      modifies this
      ensures Valid() && Step(old(Abs()), Finish(ip), Abs())
    {
      ips := ips - {ip};
      outstanding := outstanding - multiset{ip};
    }
  }
}
