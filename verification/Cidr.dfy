/** Area address ranges: CIDR lines, membership, and the area of an address. */
module Cidr {
  import opened Bytes
  import opened Strings
  import opened Ipv4Text

  datatype Range = Range(start: nat, end: nat, area: string)

  /** Reading a line: the shift is undefined for a prefix outside 1 to 32, and `stoi` may throw. */
  datatype Outcome = Undefined | LineThrown | Parsed(range: Range)

  predicate IsSpace(c: char) {
    c == ' ' || '\t' <= c <= '\r'
  }

  function SkipSpaces(s: string): string {
    if s != "" && IsSpace(s[0]) then SkipSpaces(s[1..]) else s
  }

  /** `atoi`: leading space, a sign, then digits; anything else ends the number. */
  function Atoi(s: string): int {
    var t := SkipSpaces(s);
    if t != "" && t[0] == '-' then -(Stoi(t[1..]) as int)
    else if t != "" && t[0] == '+' then Stoi(t[1..])
    else Stoi(t)
  }

  /** How many addresses a prefix of `n` bits leaves free. */
  function BlockSize(n: nat): (size: nat)
    requires n <= 32
    ensures size > 0
  {
    PowerPositive(32 - n);
    Power(2, 32 - n)
  }

  function RangeOf(start: nat, n: nat, area: string): Range
    requires 1 <= n <= 32
  {
    Range(start, (start + BlockSize(n) - 1) % TWO_TO_THE_32, area)
  }

  /** `area_ip_range::parse(rangeStr, area)`; without a slash the whole text is both address and prefix. */
  function ParseRange(text: string, area: string): Outcome {
    var slash := Find(text, "/", 0);
    var address := if slash.Some? then text[..slash.value] else text;
    var bits := Atoi(if slash.Some? then text[slash.value + 1..] else text);
    match StrToIp(address)
    case Thrown => LineThrown
    case Ip(start) => if 1 <= bits <= 32 then Parsed(RangeOf(start, bits, area)) else Undefined
  }

  lemma {:induction false} PowerPositive(k: nat)
    ensures Power(2, k) > 0
  {
    if k > 0 {
      PowerPositive(k - 1);
    }
  }

  /** `atoi` passes over space in front, takes one sign, and reads digits up to anything else. */
  lemma {:induction false} AtoiIs(spaces: string, n: nat, rest: string)
    requires (forall c :: c in spaces ==> IsSpace(c)) && (rest != "" ==> !IsDigit(rest[0]))
    ensures Atoi(spaces + Decimal(n) + rest) == n && Atoi(spaces + "+" + Decimal(n) + rest) == n
    ensures Atoi(spaces + "-" + Decimal(n) + rest) == -(n as int)
  {
    hide Decimal, Stoi, SkipSpaces;
    var digits := Decimal(n);
    var tail := digits + rest;
    NumberInFront(n, rest);
    SkipsSpaces(spaces, tail);
    assert spaces + digits + rest == spaces + tail;
    SignedIs(spaces, "+", tail);
    assert spaces + "+" + digits + rest == spaces + ("+" + tail);
    SignedIs(spaces, "-", tail);
    assert spaces + "-" + digits + rest == spaces + ("-" + tail);
  }

  lemma SignedIs(spaces: string, sign: string, tail: string)
    requires (forall c :: c in spaces ==> IsSpace(c)) && sign in ["+", "-"]
    ensures Atoi(spaces + (sign + tail)) == if sign == "-" then -(Stoi(tail) as int) else Stoi(tail)
  {
    hide Stoi, SkipSpaces;
    SkipsSpaces(spaces, sign + tail);
    assert (sign + tail)[1..] == tail;
  }

  lemma NumberInFront(n: nat, rest: string)
    requires rest != "" ==> !IsDigit(rest[0])
    ensures Decimal(n) != "" && IsDigit((Decimal(n) + rest)[0]) && Stoi(Decimal(n) + rest) == n
  {
    NumberAtStart(Decimal(n) + rest, n);
  }

  lemma {:induction false} SkipsSpaces(spaces: string, tail: string)
    requires (forall c :: c in spaces ==> IsSpace(c)) && tail != "" && !IsSpace(tail[0])
    ensures SkipSpaces(spaces + tail) == tail
  {
    if spaces == "" {
      assert spaces + tail == tail;
    } else {
      assert spaces[0] in spaces && (spaces + tail)[1..] == spaces[1..] + tail;
      SkipsSpaces(spaces[1..], tail);
    }
  }

  /** A line without a slash is both address and prefix: its first number is the prefix. */
  lemma PlainAddressLine(ip: nat, area: string)
    requires ip < TWO_TO_THE_32
    ensures var n := Digit(ip, 3);
            ParseRange(IpToStr(ip), area) == if 1 <= n <= 32 then Parsed(RangeOf(ip, n, area)) else Undefined
  {
    hide StrToIp, RangeOf, Atoi;
    NoSlash(ip);
    var text, n := IpToStr(ip), Digit(ip, 3);
    forall i: nat
      ensures !Occurs(text, "/", i)
    {
      if i < |text| {
        assert text[i..i + 1] == [text[i]] && text[i] in text;
      }
    }
    AddressRoundTrip(ip);
    var rest := "." + Decimal(Digit(ip, 2)) + "." + Decimal(Digit(ip, 1)) + "." + Decimal(Digit(ip, 0));
    AtoiIs("", n, rest);
    assert "" + Decimal(n) + rest == text;
  }

  /** A line in CIDR notation reads as the range it names, if its prefix is one from 1 to 32. */
  lemma ParseCidrLine(ip: nat, n: nat, area: string)
    requires ip < TWO_TO_THE_32
    ensures ParseRange(IpToStr(ip) + "/" + Decimal(n), area) ==
            if 1 <= n <= 32 then Parsed(RangeOf(ip, n, area)) else Undefined
  {
    hide StrToIp, IpToStr, RangeOf;
    var address, bits := IpToStr(ip), Decimal(n);
    var text := address + "/" + bits;
    var p := |address|;
    NoSlash(ip);
    forall i: nat | i < p
      ensures !Occurs(text, "/", i)
    {
      assert text[i..i + 1] == [text[i]] && text[i] == address[i] && address[i] in address;
    }
    assert text[p..p + 1] == "/";
    FindIs(text, "/", 0, p);
    assert text[..p] == address && text[p + 1..] == bits;
    AddressRoundTrip(ip);
    assert IsDigit(bits[0]);
    assert SkipSpaces(bits) == bits;
    DigitPrefixIs(bits, |bits|);
    assert bits[..|bits|] == bits;
    DecimalRoundTrip(n);
  }

  lemma NoSlash(ip: nat)
    ensures '/' !in IpToStr(ip)
  {
    var a, b, c, d := Decimal(Digit(ip, 3)), Decimal(Digit(ip, 2)), Decimal(Digit(ip, 1)), Decimal(Digit(ip, 0));
    assert '/' !in a && '/' !in b && '/' !in c && '/' !in d;
  }

  /** The range holds as many addresses from the start on as the prefix leaves free, and none if it would wrap. */
  lemma RangeHolds(start: nat, n: nat, area: string, x: nat)
    requires 1 <= n <= 32 && start < TWO_TO_THE_32 && x < TWO_TO_THE_32
    ensures InRange(RangeOf(start, n, area), x) <==>
            start <= x < start + BlockSize(n) && start + BlockSize(n) <= TWO_TO_THE_32
    ensures RangeOf(start, n, area).area == area
  {
    BlockBound(n);
    var size := BlockSize(n);
    hide BlockSize;
    if start + size > TWO_TO_THE_32 {
      assert (start + size - 1) % TWO_TO_THE_32 == start + size - 1 - TWO_TO_THE_32;
    }
  }

  lemma BlockBound(n: nat)
    requires 1 <= n <= 32
    ensures 1 <= BlockSize(n) <= 0x8000_0000
  {
    PowerOf32();
    PowerSum(n - 1, 32 - n);
    PowerPositive(n - 1);
    assert Power(2, 32) == 2 * Power(2, 31);
    assert Power(2, n - 1) * Power(2, 32 - n) >= 1 * Power(2, 32 - n);
  }

  // ----- Blocks -----

  predicate InRange(r: Range, x: nat) {
    r.start <= x <= r.end
  }

  /** The first `n` bits of an address. */
  function PrefixBits(x: nat, n: nat): nat
    requires n <= 32
  {
    x / BlockSize(n)
  }

  predicate Aligned(start: nat, n: nat)
    requires n <= 32
  {
    start % BlockSize(n) == 0
  }

  lemma {:induction false} PowerSum(j: nat, k: nat)
    ensures Power(2, j + k) == Power(2, j) * Power(2, k)
  {
    if j > 0 {
      PowerSum(j - 1, k);
      assert Power(2, j + k) == 2 * Power(2, j - 1 + k);
      assert 2 * (Power(2, j - 1) * Power(2, k)) == 2 * Power(2, j - 1) * Power(2, k);
    }
  }

  lemma PowerOf32()
    ensures Power(2, 32) == TWO_TO_THE_32
  {
    assert Power(2, 2) == 4;
    PowerSum(2, 2);
    PowerSum(4, 4);
    PowerSum(8, 8);
    PowerSum(16, 16);
  }

  lemma QuotientIs(x: nat, size: nat, q: nat)
    requires size > 0
    ensures x / size == q <==> q * size <= x < q * size + size
  {
    var p := x / size;
    assert x == p * size + x % size;
    if p < q {
      assert (p + 1) * size <= q * size;
    } else if q < p {
      assert (q + 1) * size <= p * size;
    }
  }

  lemma Exact(x: nat, d: nat)
    requires d > 0 && x % d == 0
    ensures x == x / d * d
  {
  }

  lemma MulMonotone(x: nat, y: nat, c: nat)
    requires x <= y
    ensures x * c <= y * c
  {
  }

  lemma NextMultiple(q: nat, blocks: nat, size: nat)
    requires q * size < blocks * size
    ensures q * size + size <= blocks * size
  {
    if q < blocks {
      MulMonotone(q + 1, blocks, size);
    } else {
      MulMonotone(blocks, q, size);
    }
  }

  /** An aligned block does not reach past the last address. */
  lemma AlignedFits(start: nat, n: nat)
    requires n <= 32 && start < TWO_TO_THE_32 && Aligned(start, n)
    ensures start + BlockSize(n) <= TWO_TO_THE_32 && start == PrefixBits(start, n) * BlockSize(n)
  {
    Exact(start, BlockSize(n));
    PowerOf32();
    PowerSum(n, 32 - n);
    hide Power;
    NextMultiple(PrefixBits(start, n), Power(2, n), BlockSize(n));
  }

  /** An aligned range spans its whole block, without wrapping around. */
  lemma AlignedRange(start: nat, n: nat, area: string)
    requires 1 <= n <= 32 && start < TWO_TO_THE_32 && Aligned(start, n)
    ensures RangeOf(start, n, area) == Range(start, start + BlockSize(n) - 1, area)
  {
    AlignedFits(start, n);
  }

  /** Section 3.1 of RFC 4632: the range is the set of addresses with the same prefix bits exactly when aligned. */
  lemma RangeIsPrefixIff(start: nat, n: nat, area: string)
    requires 1 <= n <= 32 && start < TWO_TO_THE_32
    ensures (forall x: nat :: x < TWO_TO_THE_32 ==>
               (InRange(RangeOf(start, n, area), x) <==> PrefixBits(x, n) == PrefixBits(start, n))) <==>
            Aligned(start, n)
  {
    if Aligned(start, n) {
      forall x: nat | x < TWO_TO_THE_32
        ensures InRange(RangeOf(start, n, area), x) <==> PrefixBits(x, n) == PrefixBits(start, n)
      {
        AlignedMember(start, n, area, x);
      }
    } else {
      var first := MissedAddress(start, n, area);
    }
  }

  /** A misaligned line: 10.0.0.1/31 covers 10.0.0.1 and 10.0.0.2, and not 10.0.0.0 of the same prefix. */
  lemma MisalignedLine(area: string)
    ensures var start := 0x0A00_0001;
            InRange(RangeOf(start, 31, area), start + 1) && PrefixBits(start + 1, 31) != PrefixBits(start, 31) &&
            !InRange(RangeOf(start, 31, area), start - 1) && PrefixBits(start - 1, 31) == PrefixBits(start, 31)
  {
    assert Power(2, 0) == 1;
    assert BlockSize(31) == 2;
  }

  lemma AlignedMember(start: nat, n: nat, area: string, x: nat)
    requires 1 <= n <= 32 && start < TWO_TO_THE_32 && Aligned(start, n) && x < TWO_TO_THE_32
    ensures InRange(RangeOf(start, n, area), x) <==> PrefixBits(x, n) == PrefixBits(start, n)
  {
    AlignedFits(start, n);
    AlignedRange(start, n, area);
    QuotientIs(x, BlockSize(n), PrefixBits(start, n));
    hide RangeOf, Power;
  }

  /** The first address of an unaligned start's block is not in its range. */
  lemma MissedAddress(start: nat, n: nat, area: string) returns (x: nat)
    requires 1 <= n <= 32 && start < TWO_TO_THE_32 && !Aligned(start, n)
    ensures x < TWO_TO_THE_32 && PrefixBits(x, n) == PrefixBits(start, n) && !InRange(RangeOf(start, n, area), x)
  {
    var size, q := BlockSize(n), PrefixBits(start, n);
    hide Power;
    x := q * size;
    assert start == q * size + start % size;
    QuotientIs(x, size, q);
  }

  /** Any two aligned ranges are nested or disjoint. */
  lemma NestedOrDisjoint(s1: nat, n1: nat, s2: nat, n2: nat, area1: string, area2: string)
    requires 1 <= n1 <= n2 <= 32 && s1 < TWO_TO_THE_32 && s2 < TWO_TO_THE_32
    requires Aligned(s1, n1) && Aligned(s2, n2)
    ensures var outer, inner := RangeOf(s1, n1, area1), RangeOf(s2, n2, area2);
            (forall x :: InRange(inner, x) ==> InRange(outer, x)) ||
            (forall x :: InRange(inner, x) ==> !InRange(outer, x))
  {
    AlignedFits(s1, n1);
    AlignedFits(s2, n2);
    AlignedRange(s1, n1, area1);
    AlignedRange(s2, n2, area2);
    var k, size, q1, q2 := Power(2, n2 - n1), BlockSize(n2), PrefixBits(s1, n1), PrefixBits(s2, n2);
    PowerSum(n2 - n1, 32 - n2);
    hide PrefixBits, Aligned, Power, RangeOf;
    Regroup(q1, k, size);
    BlocksApart(q1 * k, k, q2, size);
  }

  lemma Regroup(a: nat, b: nat, c: nat)
    ensures a * b * c == a * (b * c)
  {
  }

  /** A block of one unit lies inside or outside a block of `k` units. */
  lemma BlocksApart(a: nat, k: nat, q: nat, size: nat)
    ensures if q < a then q * size + size <= a * size
            else if q < a + k then a * size <= q * size && q * size + size <= a * size + k * size
            else a * size + k * size <= q * size
  {
    if q < a {
      assert (q + 1) * size <= a * size;
    } else if q < a + k {
      assert a * size <= q * size && (q + 1) * size <= (a + k) * size;
    } else {
      assert (a + k) * size <= q * size;
    }
  }

  // ----- The area of an address -----

  type Caches = map<string, seq<Range>>

  predicate Covers(ranges: seq<Range>, ip: nat) {
    exists r :: r in ranges && InRange(r, ip)
  }

  predicate HasArea(caches: Caches, area: string, ip: nat) {
    area in caches && Covers(caches[area], ip)
  }

  /** `is_area_ip` over the loaded ranges. */
  method IsAreaIp(caches: Caches, area: string, ip: nat) returns (r: bool)
    ensures r == HasArea(caches, area, ip)
  {
    if area in caches {
      var ranges := caches[area];
      for i := 0 to |ranges|
        invariant forall k :: 0 <= k < i ==> !InRange(ranges[k], ip)
      {
        if ip <= ranges[i].end && ip >= ranges[i].start {
          assert InRange(ranges[i], ip);
          return true;
        }
      }
    }
    return false;
  }

  /** The first area in `order` that covers the address, empty without one. */
  function AreaIn(caches: Caches, order: seq<string>, ip: nat): string {
    if order == [] then "" else if HasArea(caches, order[0], ip) then order[0] else AreaIn(caches, order[1..], ip)
  }

  /** `get_area` for one iteration order: address 0 has no area. */
  function AreaOf(caches: Caches, order: seq<string>, ip: nat): string {
    if ip > 0 then AreaIn(caches, order, ip) else ""
  }

  /** An order in which the hash map may iterate over its keys. */
  ghost predicate IsOrder(order: seq<string>, caches: Caches) {
    (forall area :: area in order <==> area in caches) && forall i, j :: 0 <= i < j < |order| ==> order[i] != order[j]
  }

  /** `get_area` over the loaded ranges. */
  method GetArea(caches: Caches, order: seq<string>, ip: nat) returns (area: string)
    requires IsOrder(order, caches)
    ensures area == AreaOf(caches, order, ip)
  {
    if ip > 0 {
      for i := 0 to |order|
        invariant AreaIn(caches, order, ip) == AreaIn(caches, order[i..], ip)
      {
        var found := IsAreaIp(caches, order[i], ip);
        assert order[i..][0] == order[i] && order[i..][1..] == order[i + 1..];
        if found {
          return order[i];
        }
      }
    }
    return "";
  }

  lemma {:induction false} AreaInIs(caches: Caches, order: seq<string>, ip: nat)
    ensures var area := AreaIn(caches, order, ip);
            if exists a :: a in order && HasArea(caches, a, ip)
            then exists i :: 0 <= i < |order| && area == order[i] && HasArea(caches, area, ip) &&
                             forall k :: 0 <= k < i ==> !HasArea(caches, order[k], ip)
            else area == ""
  {
    if order != [] {
      AreaInIs(caches, order[1..], ip);
      assert forall a :: a in order <==> a == order[0] || a in order[1..];
    }
  }

  lemma {:induction false} OrderOf(keys: set<string>) returns (order: seq<string>)
    ensures forall area :: area in order <==> area in keys
    ensures forall i, j :: 0 <= i < j < |order| ==> order[i] != order[j]
    decreases |keys|
  {
    order := [];
    if keys != {} {
      var key :| key in keys;
      var rest := OrderOf(keys - {key});
      order := [key] + rest;
    }
  }

  lemma OrderFrom(caches: Caches, first: string) returns (order: seq<string>)
    requires first in caches
    ensures IsOrder(order, caches) && order != [] && order[0] == first
  {
    var rest := OrderOf(caches.Keys - {first});
    order := [first] + rest;
  }

  ghost predicate AtMostOneArea(caches: Caches, ip: nat) {
    forall a, b :: HasArea(caches, a, ip) && HasArea(caches, b, ip) ==> a == b
  }

  ghost predicate OneAnswer(caches: Caches, ip: nat) {
    forall o, p :: IsOrder(o, caches) && IsOrder(p, caches) ==> AreaOf(caches, o, ip) == AreaOf(caches, p, ip)
  }

  /** One answer for every iteration order exactly for address 0 and when at most one area covers the address. */
  lemma OneAnswerIff(caches: Caches, ip: nat)
    ensures OneAnswer(caches, ip) <==> ip == 0 || AtMostOneArea(caches, ip)
  {
    hide Covers;
    if AtMostOneArea(caches, ip) {
      forall o, p | IsOrder(o, caches) && IsOrder(p, caches)
        ensures AreaOf(caches, o, ip) == AreaOf(caches, p, ip)
      {
        AreaInIs(caches, o, ip);
        AreaInIs(caches, p, ip);
      }
    } else if ip > 0 {
      var a, b :| HasArea(caches, a, ip) && HasArea(caches, b, ip) && a != b;
      var o := OrderFrom(caches, a);
      var p := OrderFrom(caches, b);
      assert AreaOf(caches, o, ip) == a && AreaOf(caches, p, ip) == b;
    }
  }

  /** Two areas that cover address 7: the answer is whichever the map hands out first. */
  lemma OrderMatters()
    ensures var caches: Caches := map["AA" := [Range(5, 9, "AA")], "BB" := [Range(7, 7, "BB")]];
            IsOrder(["AA", "BB"], caches) && IsOrder(["BB", "AA"], caches) &&
            AreaOf(caches, ["AA", "BB"], 7) == "AA" && AreaOf(caches, ["BB", "AA"], 7) == "BB"
  {
    var caches: Caches := map["AA" := [Range(5, 9, "AA")], "BB" := [Range(7, 7, "BB")]];
    assert Range(5, 9, "AA") in caches["AA"] && InRange(Range(5, 9, "AA"), 7);
    assert Range(7, 7, "BB") in caches["BB"] && InRange(Range(7, 7, "BB"), 7);
    assert HasArea(caches, "AA", 7) && HasArea(caches, "BB", 7);
  }

  /** No address lies in ranges of two areas. */
  ghost predicate AreasDisjoint(caches: Caches) {
    forall a, b, r, s, x ::
      a in caches && b in caches && a != b && r in caches[a] && s in caches[b] && InRange(r, x) ==> !InRange(s, x)
  }

  /** When the ranges of different areas are disjoint, every address has one answer. */
  lemma DisjointAreasGiveOneAnswer(caches: Caches, ip: nat)
    requires AreasDisjoint(caches)
    ensures OneAnswer(caches, ip)
  {
    OneAnswerIff(caches, ip);
  }
}
