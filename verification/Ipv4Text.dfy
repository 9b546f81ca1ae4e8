/** IPv4 addresses as dotted text, and lists of them. */
module Ipv4Text {
  import opened Bytes
  import opened Strings

  const MAX_INT := 0x7FFF_FFFF

  /** `ip_to_str`. */
  function IpToStr(ip: nat): string {
    Decimal(Digit(ip, 3)) + "." + Decimal(Digit(ip, 2)) + "." + Decimal(Digit(ip, 1)) + "." + Decimal(Digit(ip, 0))
  }

  /** What `str_to_ip` does: it returns a number, or `stoi` throws because the digits exceed an int. */
  datatype Parsed = Thrown | Ip(value: nat)

  /** The text `substr(lastPos, pos)`: the position of the dot is taken as a length, so it may run too far. */
  function Segment(s: string, lastPos: nat, dot: Option<nat>): string
    requires lastPos <= |s|
  {
    if dot.None? || lastPos + dot.value >= |s| then s[lastPos..] else s[lastPos..lastPos + dot.value]
  }

  /** `stoi` on text that begins with a digit: it stops at the first other character. */
  function Stoi(s: string): nat {
    DigitsValue(s[..DigitPrefix(s)])
  }

  /** The loop of `str_to_ip`, entered after `num` segments. */
  function StrToIpFrom(s: string, num: nat, lastPos: nat, ip: nat): Parsed
    requires num <= 4
    decreases 4 - num
  {
    if num == 4 || lastPos >= |s| then Ip(ip)
    else
      var dot := Find(s, ".", lastPos);
      if (num != 3 && dot.None?) || (num == 3 && dot.Some?) then Ip(0)
      else
        var text := Segment(s, lastPos, dot);
        if text == "" || !IsDigit(text[0]) then Ip(0)
        else if Stoi(text) > MAX_INT then Thrown
        else if Stoi(text) > 255 then Ip(0)
        else
          StrToIpFrom(s, num + 1, if dot.Some? then dot.value + 1 else 0,
                      BitOr(ip, ShiftLeft(Stoi(text), 32 - 8 * (num + 1))))
  }

  function StrToIp(s: string): Parsed {
    StrToIpFrom(s, 0, 0, 0)
  }

  method DoStrToIp(s: string) returns (r: Parsed)
    ensures r == StrToIp(s)
  {
    hide BitOr, ShiftLeft, Stoi, Segment, Find;
    var ip: nat, lastPos: nat, num: nat := 0, 0, 0;
    while num < 4 && lastPos < |s|
      invariant num <= 4 && StrToIp(s) == StrToIpFrom(s, num, lastPos, ip)
      decreases 4 - num
    {
      var pos := Find(s, ".", lastPos);
      if (num != 3 && pos.None?) || (num == 3 && pos.Some?) {
        return Ip(0);
      }
      var text := Segment(s, lastPos, pos);
      if text == "" {
        return Ip(0);
      }
      if text[0] < '0' || text[0] > '9' {
        return Ip(0);
      }
      var seg := Stoi(text);
      if seg > MAX_INT {
        return Thrown;
      }
      if seg > 255 {
        return Ip(0);
      }
      assert StrToIpFrom(s, num, lastPos, ip) ==
             StrToIpFrom(s, num + 1, if pos.Some? then pos.value + 1 else 0,
                         BitOr(ip, ShiftLeft(seg, 32 - 8 * (num + 1))));
      lastPos := if pos.Some? then pos.value + 1 else 0;
      num := num + 1;
      ip := BitOr(ip, ShiftLeft(seg, 32 - 8 * num));
    }
    return Ip(ip);
  }

  // ----- Reading back what was printed -----

  /** `text` is at `at`, followed by a dot or, for the last segment, by nothing. */
  predicate SegmentAt(s: string, at: nat, text: string, last: bool) {
    var end := at + |text|;
    end <= |s| && s[at..end] == text && if last then end == |s| else end < |s| && s[end] == '.'
  }

  /** The over-long segment still reads as the number that stands there. */
  lemma ReadSegment(s: string, at: nat, n: nat, last: bool)
    requires SegmentAt(s, at, Decimal(n), last)
    ensures var end := at + |Decimal(n)|;
            var dot := Find(s, ".", at);
            dot == (if last then None else Some(end)) &&
            var text := Segment(s, at, dot);
            text != "" && IsDigit(text[0]) && Stoi(text) == n
  {
    hide Decimal, Stoi;
    DecimalRoundTrip(n);
    var digits := Decimal(n);
    var end := at + |digits|;
    forall i: nat | at <= i < end
      ensures !Occurs(s, ".", i)
    {
      assert s[at..end][i - at] == s[i] && IsDigit(s[i]);
      assert s[i..i + 1] == [s[i]];
    }
    if !last {
      assert s[end..end + 1] == ".";
      FindIs(s, ".", at, end);
    }
    var text := Segment(s, at, Find(s, ".", at));
    assert text[..|digits|] == digits;
    assert |digits| < |text| ==> text[|digits|] == s[end];
    NumberAtStart(text, n);
  }

  lemma NumberAtStart(text: string, n: nat)
    requires Decimal(n) <= text && (|Decimal(n)| < |text| ==> !IsDigit(text[|Decimal(n)|]))
    ensures Stoi(text) == n && IsDigit(text[0])
  {
    hide Decimal, DigitsValue, DigitPrefix;
    var digits := Decimal(n);
    assert text[..|digits|] == digits;
    assert forall i :: 0 <= i < |digits| ==> text[i] == digits[i];
    DigitPrefixIs(text, |digits|);
    DecimalRoundTrip(n);
  }

  lemma ReadNext(s: string, num: nat, at: nat, n: nat, x: nat)
    requires num < 4 && n <= 255 && SegmentAt(s, at, Decimal(n), num == 3)
    ensures StrToIpFrom(s, num, at, ShiftLeft(x, 32 - 8 * num)) ==
            StrToIpFrom(s, num + 1, if num == 3 then 0 else at + |Decimal(n)| + 1,
                        ShiftLeft(256 * x + n, 32 - 8 * (num + 1)))
  {
    hide ShiftLeft, BitOr, Stoi, Segment;
    ReadSegment(s, at, n, num == 3);
    AppendShiftedByte(x, n, 32 - 8 * (num + 1));
  }

  lemma DigitsOf(ip: nat)
    requires ip < TWO_TO_THE_32
    ensures 256 * (256 * (256 * Digit(ip, 3) + Digit(ip, 2)) + Digit(ip, 1)) + Digit(ip, 0) == ip
  {
    assert Digit(ip, 1) == Digit(ip / 256, 0);
    assert Digit(ip, 2) == Digit(ip / 256, 1) == Digit(ip / 256 / 256, 0);
    assert Digit(ip, 3) == Digit(ip / 256, 2) == Digit(ip / 256 / 256, 1) == Digit(ip / 256 / 256 / 256, 0);
  }

  /** Every 32-bit address reads back from its text. */
  lemma AddressRoundTrip(ip: nat)
    requires ip < TWO_TO_THE_32
    ensures StrToIp(IpToStr(ip)) == Ip(ip)
  {
    hide Decimal, ShiftLeft, StrToIpFrom;
    var s := IpToStr(ip);
    var a: nat, b: nat, c: nat, d: nat := Digit(ip, 3), Digit(ip, 2), Digit(ip, 1), Digit(ip, 0);
    var p1 := |Decimal(a)| + 1;
    var p2 := p1 + |Decimal(b)| + 1;
    var p3 := p2 + |Decimal(c)| + 1;
    Layout(Decimal(a), Decimal(b), Decimal(c), Decimal(d));
    ShiftZero(32);
    ReadNext(s, 0, 0, a, 0);
    ReadNext(s, 1, p1, b, a);
    ReadNext(s, 2, p2, c, 256 * a + b);
    ReadNext(s, 3, p3, d, 256 * (256 * a + b) + c);
    DigitsOf(ip);
    NoShift(ip);
    ReadDone(s, ip);
  }

  lemma NoShift(v: nat)
    ensures ShiftLeft(v, 0) == v
  {
  }

  lemma ReadDone(s: string, ip: nat)
    ensures StrToIpFrom(s, 4, 0, ip) == Ip(ip)
  {
  }

  lemma Layout(a: string, b: string, c: string, d: string)
    ensures var s := a + "." + b + "." + c + "." + d;
            SegmentAt(s, 0, a, false) && SegmentAt(s, |a| + 1, b, false) &&
            SegmentAt(s, |a| + 1 + |b| + 1, c, false) && SegmentAt(s, |a| + 1 + |b| + 1 + |c| + 1, d, true)
  {
  }

  // ----- What any text reads as -----

  /** The number that `num` fields make, the first counting most. */
  function Placed(x: nat, num: nat): nat {
    if num >= 4 then x else if num == 3 then 256 * x else if num == 2 then 0x1_0000 * x else 0x100_0000 * x
  }

  /**
   * Reading the pieces between dots, one field after the other. Only the number at the start of a piece counts, and a
   * text that ends in a dot ends the reading early; anything else but four fields is 0.
   */
  function ReadFields(pieces: seq<string>, num: nat, x: nat): Parsed
    decreases |pieces|
  {
    if pieces == [] || (pieces == [""] && num > 0) then Ip(Placed(x, num))
    else if (num < 3 && |pieces| == 1) || (num == 3 && |pieces| > 1) then Ip(0)
    else if pieces[0] == "" || !IsDigit(pieces[0][0]) then Ip(0)
    else if Stoi(pieces[0]) > 0x7FFF_FFFF then Thrown
    else if Stoi(pieces[0]) > 255 then Ip(0)
    else if num == 3 then Ip(256 * x + Stoi(pieces[0]))
    else ReadFields(pieces[1..], num + 1, 256 * x + Stoi(pieces[0]))
  }

  /** Text that goes on behind a piece with a dot starts like the piece and has the same number at its start. */
  lemma SameNumber(piece: string, text: string)
    requires piece != "" && piece <= text && (|piece| < |text| ==> text[|piece|] == '.')
    ensures text[0] == piece[0] && Stoi(text) == Stoi(piece)
  {
    var n := DigitPrefix(piece);
    assert forall i :: 0 <= i < |piece| ==> text[i] == piece[i];
    DigitPrefixIs(text, n);
    assert text[..n] == piece[..n];
  }

  /** The over-long segment starts with the piece up to the next dot, and goes on with that dot if at all. */
  lemma SegmentStart(s: string, lastPos: nat, dot: Option<nat>)
    requires lastPos < |s| && (dot.Some? ==> lastPos <= dot.value < |s| && s[dot.value] == '.')
    ensures var piece, text := s[lastPos..if dot.Some? then dot.value else |s|], Segment(s, lastPos, dot);
            piece <= text && (|piece| < |text| ==> text[|piece|] == '.')
  {
  }

  /** The over-long segment reads like the piece up to the next dot. */
  lemma SegmentIsPiece(s: string, lastPos: nat)
    requires lastPos < |s|
    ensures var dot := Find(s, ".", lastPos);
            dot.Some? ==> dot.value < |s|
    ensures var dot := Find(s, ".", lastPos);
            var piece := s[lastPos..if dot.Some? then dot.value else |s|];
            var text := Segment(s, lastPos, dot);
            (text == "" || !IsDigit(text[0]) <==> piece == "" || !IsDigit(piece[0])) &&
            (piece != "" && IsDigit(piece[0]) ==> Stoi(text) == Stoi(piece))
  {
    hide Segment, Stoi;
    var dot := Find(s, ".", lastPos);
    if dot.Some? {
      FoundInside(s, ".", dot.value);
      assert s[dot.value..dot.value + 1][0] == s[dot.value] == '.';
    }
    SegmentStart(s, lastPos, dot);
    var piece := s[lastPos..if dot.Some? then dot.value else |s|];
    if piece != "" {
      SameNumber(piece, Segment(s, lastPos, dot));
    }
  }

  lemma {:induction false} ReadsFrom(s: string, num: nat, lastPos: nat, x: nat)
    requires num <= 3 && lastPos <= |s| && (num == 0 ==> lastPos < |s|)
    ensures StrToIpFrom(s, num, lastPos, ShiftLeft(x, 32 - 8 * num)) ==
            ReadFields(SplitFrom(s, ".", lastPos, lastPos, 0, num), num, x)
    decreases 4 - num
  {
    hide ShiftLeft, BitOr, Stoi, Segment, Occurs;
    var dot := Find(s, ".", lastPos);
    if lastPos == |s| {
      NothingFound(s, lastPos, num);
      if num > 0 {
        PlacedIs(x, num);
      }
    } else {
      SegmentIsPiece(s, lastPos);
      var piece := s[lastPos..if dot.Some? then dot.value else |s|];
      assert dot.None? ==> s[lastPos..] == piece;
      var n := Stoi(piece);
      if piece != "" && IsDigit(piece[0]) && n <= 255 {
        AppendShiftedByte(x, n, 32 - 8 * (num + 1));
        if num < 3 && dot.Some? {
          ReadsFrom(s, num + 1, dot.value + 1, 256 * x + n);
          FirstPieceThenRest(s, lastPos, num);
        } else if num == 3 && dot.None? {
          NoShift(256 * x + n);
        }
      }
    }
  }

  lemma FirstPieceThenRest(s: string, lastPos: nat, done: nat)
    requires lastPos <= |s| && Find(s, ".", lastPos).Some?
    ensures var p := Find(s, ".", lastPos).value;
            p < |s| && SplitFrom(s, ".", lastPos, lastPos, 0, done)[0] == s[lastPos..p] &&
            SplitFrom(s, ".", lastPos, lastPos, 0, done)[1..] == SplitFrom(s, ".", p + 1, p + 1, 0, done + 1)
  {
    FoundInside(s, ".", Find(s, ".", lastPos).value);
  }

  lemma NothingFound(s: string, lastPos: nat, done: nat)
    requires lastPos == |s|
    ensures SplitFrom(s, ".", lastPos, lastPos, 0, done) == [""]
  {
    assert Find(s, ".", lastPos) == None;
    assert s[lastPos..] == "";
  }

  lemma PlacedIs(x: nat, num: nat)
    requires 1 <= num <= 3
    ensures ShiftLeft(x, 32 - 8 * num) == Placed(x, num)
  {
    var k: nat := 32 - 8 * num;
    assert k == 8 || k == 16 || k == 24;
    ShiftBytes(x);
  }

  lemma ShiftBytes(x: nat)
    ensures ShiftLeft(x, 8) == 256 * x && ShiftLeft(x, 16) == 0x1_0000 * x && ShiftLeft(x, 24) == 0x100_0000 * x
  {
    hide ShiftLeft;
    ShiftByte(x);
    ShiftByte(256 * x);
    ShiftByte(0x1_0000 * x);
    ShiftTwice(x, 8, 8);
    ShiftTwice(x, 16, 8);
  }

  /** For every text, the loop over positions gives what reading its pieces gives. */
  lemma StrToIpIs(s: string)
    ensures StrToIp(s) == ReadFields(Split(s, "."), 0, 0)
  {
    if s != "" {
      hide StrToIpFrom, ReadFields, SplitFrom;
      ShiftZero(32);
      ReadsFrom(s, 0, 0, 0);
    }
  }

  /** An address is written high byte first. */
  lemma AddressTexts()
    ensures IpToStr(0x0102_0304) == "1.2.3.4"
  {
    assert Digit(0x0102_0304, 0) == 4 && Digit(0x0102_0304, 1) == Digit(0x01_0203, 0) == 3;
    assert Digit(0x0102_0304, 2) == Digit(0x01_0203, 1) == Digit(0x0102, 0) == 2;
    assert Digit(0x0102_0304, 3) == Digit(0x01_0203, 2) == Digit(0x0102, 1) == Digit(0x01, 0) == 1;
    assert Decimal(1) == "1" && Decimal(2) == "2" && Decimal(3) == "3" && Decimal(4) == "4";
  }

  // ----- Lists of addresses -----

  function Texts(ips: seq<nat>): seq<string> {
    seq(|ips|, i requires 0 <= i < |ips| => IpToStr(ips[i]))
  }

  /** `ips_to_str`: a comma behind every address, then the last character dropped. */
  method IpsToStr(ips: seq<nat>) returns (s: string)
    ensures s == Interleave(Texts(ips), ",")
  {
    hide IpToStr;
    s := "";
    for i := 0 to |ips|
      invariant s == Commas(Texts(ips)[..i])
    {
      assert Texts(ips)[..i + 1] == Texts(ips)[..i] + [IpToStr(ips[i])];
      CommasAppend(Texts(ips)[..i], IpToStr(ips[i]));
      s := s + IpToStr(ips[i]);
      s := s + ",";
    }
    assert Texts(ips)[..|ips|] == Texts(ips);
    DropLast(Texts(ips));
    s := if s == "" then s else s[..|s| - 1];
  }

  function Commas(texts: seq<string>): string {
    if texts == [] then "" else texts[0] + "," + Commas(texts[1..])
  }

  lemma {:induction false} CommasAppend(texts: seq<string>, text: string)
    ensures Commas(texts + [text]) == Commas(texts) + text + ","
  {
    if texts == [] {
      assert texts + [text] == [text] && [text][1..] == [];
      assert "" + text == text;
    } else {
      CommasAppend(texts[1..], text);
      assert (texts + [text])[1..] == texts[1..] + [text];
    }
  }

  lemma {:induction false} DropLast(texts: seq<string>)
    ensures texts != [] ==> Commas(texts) == Interleave(texts, ",") + ","
  {
    if |texts| > 1 {
      DropLast(texts[1..]);
    } else if |texts| == 1 {
      assert Commas(texts[1..]) == "";
    }
  }

  datatype ParsedList = ListThrown | Ips(values: seq<nat>)

  function StrToIpsFrom(pieces: seq<string>, done: seq<nat>): ParsedList
    decreases |pieces|
  {
    if pieces == [] then Ips(done)
    else match StrToIp(pieces[0])
      case Thrown => ListThrown
      case Ip(ip) => StrToIpsFrom(pieces[1..], if ip > 0 then done + [ip] else done)
  }

  /** `str_to_ips`: the addresses between commas, without zeros. */
  method StrToIps(s: string) returns (r: ParsedList)
    ensures r == StrToIpsFrom(Split(s, ","), [])
  {
    hide StrToIpFrom;
    var pieces := DoSplit(s, ",", 0, 0);
    var ips := [];
    for i := 0 to |pieces|
      invariant StrToIpsFrom(pieces, []) == StrToIpsFrom(pieces[i..], ips)
    {
      assert pieces[i..][1..] == pieces[i + 1..];
      var ip := DoStrToIp(pieces[i]);
      if ip.Thrown? {
        return ListThrown;
      }
      if ip.value > 0 {
        ips := ips + [ip.value];
      }
    }
    return Ips(ips);
  }

  function WithoutZeros(ips: seq<nat>): seq<nat> {
    if ips == [] then [] else (if ips[0] == 0 then [] else [ips[0]]) + WithoutZeros(ips[1..])
  }

  lemma {:induction false} ReadTexts(ips: seq<nat>, done: seq<nat>)
    requires forall ip :: ip in ips ==> ip < TWO_TO_THE_32
    ensures StrToIpsFrom(Texts(ips), done) == Ips(done + WithoutZeros(ips))
    decreases |ips|
  {
    hide StrToIp, IpToStr;
    if ips == [] {
      assert done + WithoutZeros(ips) == done;
    } else {
      assert ips[0] in ips;
      forall ip | ip in ips[1..]
        ensures ip in ips
      {
        var i :| 0 <= i < |ips| - 1 && ips[1..][i] == ip;
        assert ips[i + 1] == ip;
      }
      AddressRoundTrip(ips[0]);
      assert Texts(ips)[1..] == Texts(ips[1..]);
      var rest := WithoutZeros(ips[1..]);
      var more := if ips[0] > 0 then done + [ips[0]] else done;
      ReadTexts(ips[1..], more);
      assert more + rest == done + ((if ips[0] == 0 then [] else [ips[0]]) + rest);
    }
  }

  lemma NoComma(ip: nat)
    ensures ',' !in IpToStr(ip) && IpToStr(ip) != ""
  {
    var a, b, c, d := Decimal(Digit(ip, 3)), Decimal(Digit(ip, 2)), Decimal(Digit(ip, 1)), Decimal(Digit(ip, 0));
    assert ',' !in a && ',' !in b && ',' !in c && ',' !in d;
  }

  /** Printing and reading a list of 32-bit addresses drops exactly its zeros. */
  lemma AddressListRoundTrip(ips: seq<nat>)
    requires forall ip :: ip in ips ==> ip < TWO_TO_THE_32
    ensures StrToIpsFrom(Split(Interleave(Texts(ips), ","), ","), []) == Ips(WithoutZeros(ips))
  {
    hide IpToStr, StrToIpsFrom;
    ReadTexts(ips, []);
    assert [] + WithoutZeros(ips) == WithoutZeros(ips);
    if ips != [] {
      forall piece | piece in Texts(ips)
        ensures ',' !in piece
      {
        var i :| 0 <= i < |ips| && piece == IpToStr(ips[i]);
        NoComma(ips[i]);
      }
      var whole := Interleave(Texts(ips), ",");
      NoComma(ips[0]);
      assert whole[0..] == whole && whole != "";
      SplitInterleaved(Texts(ips), ',', whole, 0, 0);
    } else {
      assert Texts(ips) == [];
    }
  }
}
