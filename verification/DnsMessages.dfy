/** Reading DNS messages: header, question zone, resource records, and the objects that parse them. */
module DnsMessages {
  import opened Bytes
  import opened DomainNames

  const HEADER_LEN := 12
  const TYPE_A := 1
  const TYPE_CNAME := 5

  datatype Header = Header(id: nat, qr: bool, opcode: nat, rcode: nat, questionCount: nat, answerCount: nat)

  datatype Question = Question(name: Text, qtype: nat, len: nat)

  datatype Zone = Zone(valid: bool, questions: seq<Question>, len: nat)

  datatype Resource = Resource(owner: Text, rtype: nat, rclass: nat, ttl: nat, cname: Option<Text>, ips: seq<nat>,
                               len: nat)

  datatype Answers = Answers(valid: bool, zones: seq<Resource>, ips: seq<nat>)

  datatype Response = Response(valid: bool, header: Option<Header>, zone: Option<Zone>, answers: seq<Resource>,
                               ips: seq<nat>)

  datatype Request = Request(valid: bool, header: Option<Header>, zone: Option<Zone>, hosts: seq<Text>)

  // ----- What each parser computes from memory -----

  function ParseHeader(mem: seq<byte>, len: nat): Access<Option<Header>> {
    if len < HEADER_LEN then Got(None)
    else
      var id :- NumberAt(mem, 0, 2);
      var flags :- NumberAt(mem, 2, 2);
      var questions :- NumberAt(mem, 4, 2);
      var answers :- NumberAt(mem, 6, 2);
      Got(Some(Header(id, flags / 0x8000 % 2 == 1, flags / 0x800 % 16, flags % 16, questions, answers)))
  }

  /**
   * Section 4.1.1 of RFC 1035, for all memory: what each byte of the header means. Its last four bytes are never read.
   */
  lemma HeaderBytes(mem: seq<byte>, len: nat)
    ensures len < 12 ==> ParseHeader(mem, len) == Got(None)
    ensures len >= 12 && |mem| < 8 ==> ParseHeader(mem, len) == Overrun
    ensures len >= 12 && |mem| >= 8 ==>
              ParseHeader(mem, len) ==
              Got(Some(Header(Pair(mem[0], mem[1]), mem[2] >= 128, mem[2] as nat / 8 % 16, mem[3] as nat % 16,
                              Pair(mem[4], mem[5]), Pair(mem[6], mem[7]))))
  {
    if |mem| >= 8 {
      TwoBytes(mem, 0);
      TwoBytes(mem, 2);
      TwoBytes(mem, 4);
      TwoBytes(mem, 6);
      FlagBits(mem[2], mem[3]);
      hide NumberAt;
    }
  }

  /** Two bytes, the first of which counts 256 times. */
  function Pair(high: byte, low: byte): nat {
    256 * (high as nat) + low as nat
  }

  lemma TwoBytes(mem: seq<byte>, at: nat)
    requires at + 2 <= |mem|
    ensures NumberAt(mem, at, 2) == Got(Pair(mem[at], mem[at + 1]))
  {
    NetworkOrder(mem[at], mem[at + 1], 0, 0);
    assert mem[at..at + 2] == [mem[at], mem[at + 1]];
  }

  lemma FlagBits(high: byte, low: byte)
    ensures var flags := Pair(high, low);
            (flags / 0x8000 % 2 == 1 <==> high >= 128) && flags / 0x800 % 16 == high as nat / 8 % 16 &&
            flags % 16 == low as nat % 16
  {
    var flags := Pair(high, low);
    assert flags / 0x8000 == high as nat / 128;
    assert flags / 0x800 == high as nat / 8;
  }

  /** `dns_query::parse`: the name is read relative to the question's own start; `None` marks an invalid question. */
  function ParseQuestion(mem: seq<byte>, len: nat): Access<Option<Question>> {
    var name :- ParseName(mem, len, 0, len, 0, []);
    if name.consumed == 0 then Got(None)
    else
      var qtype :- NumberAt(mem, name.consumed, 2);
      Got(Some(Question(name.text, qtype, name.consumed + 4)))
  }

  /** The loop of the `dns_query_zone` constructor: `rest` is a 32-bit counter, `len` is never reduced. */
  function ParseQuestions(mem: seq<byte>, at: nat, len: nat, rest: nat, count: nat, done: seq<Question>, size: nat):
    Access<Zone>
    decreases count - |done|
  {
    if rest == 0 || |done| >= count then Got(Zone(true, done, size))
    else if at > |mem| then Overrun
    else
      var question :- ParseQuestion(mem[at..], len);
      match question
      case None => Got(Zone(false, done, size))
      case Some(q) =>
        ParseQuestions(mem, at + q.len, len, WrappedMinus(TWO_TO_THE_32, rest, q.len), count, done + [q], size + q.len)
  }

  function ParseZone(mem: seq<byte>, at: nat, len: nat, count: nat): Access<Zone> {
    ParseQuestions(mem, at, len, len, count, [], 0)
  }

  lemma QuestionEnds(mem: seq<byte>, len: nat)
    ensures var r := ParseQuestion(mem, len); r.Got? && r.value.Some? ==> 4 <= r.value.value.len <= |mem| + 2
  {
    hide ParseName;
  }

  /** However the questions were read, they end at most two bytes behind memory. */
  lemma {:induction false} QuestionsEnd(mem: seq<byte>, at: nat, len: nat, rest: nat, count: nat, done: seq<Question>,
                                        size: nat)
    requires at <= |mem| + 2
    ensures var r := ParseQuestions(mem, at, len, rest, count, done, size);
            r.Got? ==> size <= r.value.len && at + (r.value.len - size) <= |mem| + 2 && |done| <= |r.value.questions| &&
                       (|done| < |r.value.questions| ==> size + 4 <= r.value.len)
    decreases count - |done|
  {
    hide ParseQuestion, WrappedMinus;
    if rest != 0 && |done| < count && at <= |mem| {
      QuestionEnds(mem[at..], len);
      var r := ParseQuestion(mem[at..], len);
      if r.Got? && r.value.Some? {
        var q := r.value.value;
        QuestionsEnd(mem, at + q.len, len, WrappedMinus(TWO_TO_THE_32, rest, q.len), count, done + [q], size + q.len);
      }
    }
  }

  /**
   * The type field of the last question is always read from memory and its class field never: the zone reaches behind
   * memory exactly when that class field does, and then by at most two bytes.
   */
  lemma ZoneEnds(mem: seq<byte>, at: nat, len: nat, count: nat)
    ensures var r := ParseZone(mem, at, len, count);
            r.Got? && r.value.questions != [] ==>
              at + r.value.len <= |mem| + 2 &&
              r.value.len >= 4 && NumberAt(mem, at + r.value.len - 4, 2).Got? &&
              (NumberAt(mem, at + r.value.len - 2, 2).Got? <==> at + r.value.len <= |mem|)
  {
    if at <= |mem| {
      QuestionsEnd(mem, at, len, len, count, [], 0);
    }
  }

  function Addresses(mem: seq<byte>, at: nat, count: nat, done: seq<nat>): Access<seq<nat>>
    decreases count
  {
    if count == 0 then Got(done)
    else
      var ip :- NumberAt(mem, at, 4);
      Addresses(mem, at + 4, count - 1, done + [ip])
  }

  /** The `dns_resource_zone` constructor; `None` marks an invalid record. */
  function ParseResource(mem: seq<byte>, size: nat, begin: nat): Access<Option<Resource>> {
    var owner :- ParseName(mem, size, begin, WrappedMinus(TWO_TO_THE_64, size, begin), 0, []);
    if owner.consumed == 0 then Got(None)
    else ParseFields(mem, size, begin + owner.consumed, owner)
  }

  /** The fields behind the owner name, which start at `p`. */
  function ParseFields(mem: seq<byte>, size: nat, p: nat, owner: Name): Access<Option<Resource>> {
    var rtype :- NumberAt(mem, p, 2);
    var rclass :- NumberAt(mem, p + 2, 2);
    var ttl :- NumberAt(mem, p + 4, 4);
    var length :- NumberAt(mem, p + 8, 2);
    var total := owner.consumed + 10 + length;
    if rtype == TYPE_CNAME then
      var cname :- ParseName(mem, size, p + 10, length, 0, []);
      Got(if cname.consumed == 0 then None
          else Some(Resource(owner.text, rtype, rclass, ttl, Some(cname.text), [], total)))
    else if length % 4 == 0 then
      var ips :- Addresses(mem, p + 10, length / 4, []);
      Got(Some(Resource(owner.text, rtype, rclass, ttl, None, ips, total)))
    else Got(None)
  }

  function ParseAnswers(mem: seq<byte>, size: nat, begin: nat, count: nat, zones: seq<Resource>, ips: seq<nat>):
    Access<Answers>
    decreases count - |zones|
  {
    if |zones| >= count then Got(Answers(true, zones, ips))
    else
      var answer :- ParseResource(mem, size, begin);
      match answer
      case None => Got(Answers(false, zones, ips))
      case Some(zone) => ParseAnswers(mem, size, begin + zone.len, count, zones + [zone], ips + zone.ips)
  }

  lemma NoAnswers(mem: seq<byte>, size: nat, begin: nat)
    ensures ParseAnswers(mem, size, begin, 0, [], []) == Got(Answers(true, [], []))
  {
  }

  /** Reading the answers behind the question zone. */
  function AnswersOf(mem: seq<byte>, readable: nat, header: Header, zone: Zone): Access<Response> {
    var answers :- ParseAnswers(mem, readable, HEADER_LEN + zone.len, header.answerCount, [], []);
    Got(Response(answers.valid, Some(header), Some(zone), answers.zones, answers.ips))
  }

  /** Reading what follows the header. */
  function BodyOf(mem: seq<byte>, readable: nat, header: Header): Access<Response>
    requires readable > HEADER_LEN
  {
    if header.rcode != 0 then Got(Response(true, Some(header), None, [], []))
    else
      var zone :- ParseZone(mem, HEADER_LEN, readable - HEADER_LEN, header.questionCount);
      if !zone.valid then Got(Response(false, Some(header), None, [], []))
      else AnswersOf(mem, readable, header, zone)
  }

  function ParseResponse(mem: seq<byte>, readable: nat): Access<Response> {
    if readable <= HEADER_LEN then Got(Response(false, None, None, [], []))
    else
      var header :- ParseHeader(mem, readable);
      if header.None? then Got(Response(false, None, None, [], []))
      else BodyOf(mem, readable, header.value)
  }

  /** `tcp_response::parse`: the UDP form behind its length; `None` marks an invalid response. */
  function ParseTcpResponse(mem: seq<byte>, readable: nat): Access<Option<Response>> {
    if readable <= 2 then Got(None)
    else
      var size :- NumberAt(mem, 0, 2);
      if size != readable - 2 then Got(None)
      else
        var response :- ParseResponse(mem[2..], size);
        Got(if response.valid then Some(response) else None)
  }

  /** The names of the questions that have one. */
  function QuestionHosts(questions: seq<Question>): seq<Text> {
    if questions == [] then []
    else QuestionHosts(questions[..|questions| - 1]) +
         (var name := questions[|questions| - 1].name; if name == [] then [] else [name])
  }

  function ParseRequest(mem: seq<byte>, readable: nat): Access<Request> {
    if readable <= HEADER_LEN then Got(Request(false, None, None, []))
    else
      var header :- ParseHeader(mem, HEADER_LEN);
      if header.None? then Got(Request(false, None, None, []))
      else
        var zone :- ParseZone(mem, HEADER_LEN, readable - HEADER_LEN, header.value.questionCount);
        Got(if !zone.valid || zone.questions == [] then Request(false, header, None, [])
            else Request(true, header, Some(zone), QuestionHosts(zone.questions)))
  }

  // ----- The parsers, reading a buffer in place through a data pointer `base` -----

  method ReadNumber(mem: array<byte>, base: nat, at: nat, width: nat) returns (r: Access<nat>)
    requires base <= mem.Length && width <= 4
    ensures r == NumberAt(mem[base..], at, width)
  {
    if base + at + width <= mem.Length {
      assert mem[..][base + at..base + at + width] == mem[base..][at..at + width];
      BitOrZero(BigEndian(mem[base..][at..at + width]));
    }
    r := Read(mem, base + at, width, 0);
  }

  method ReadHeader(mem: array<byte>, base: nat, len: nat) returns (r: Access<Option<Header>>)
    requires base <= mem.Length
    ensures r == ParseHeader(mem[base..], len)
  {
    if len < HEADER_LEN {
      return Got(None);
    }
    var id :- ReadNumber(mem, base, 0, 2);
    var flags :- ReadNumber(mem, base, 2, 2);
    var questions :- ReadNumber(mem, base, 4, 2);
    var answers :- ReadNumber(mem, base, 6, 2);
    return Got(Some(Header(id, flags / 0x8000 % 2 == 1, flags / 0x800 % 16, flags % 16, questions, answers)));
  }

  method ReadQuestion(mem: array<byte>, base: nat, len: nat) returns (r: Access<Option<Question>>)
    requires base <= mem.Length
    ensures r == ParseQuestion(mem[base..], len)
  {
    var name :- ParseRe(mem, base, len, 0, len, 0, []);
    if name.consumed == 0 {
      return Got(None);
    }
    var qtype :- ReadNumber(mem, base, name.consumed, 2);
    return Got(Some(Question(name.text, qtype, name.consumed + 4)));
  }

  method ReadZone(mem: array<byte>, base: nat, at: nat, len: nat, count: nat) returns (r: Access<Zone>)
    requires base <= mem.Length
    ensures r == ParseZone(mem[base..], at, len, count)
  {
    ghost var m := mem[base..];
    var questions: seq<Question> := [];
    var data: nat, rest: nat, realSize: nat := at, len, 0;
    while rest > 0 && |questions| < count
      invariant ParseZone(m, at, len, count) == ParseQuestions(m, data, len, rest, count, questions, realSize)
      decreases count - |questions|
    {
      if base + data > mem.Length {
        return Overrun;
      }
      assert mem[base + data..] == m[data..];
      var question :- ReadQuestion(mem, base + data, len);
      if question.None? {
        return Got(Zone(false, questions, realSize));
      }
      var q := question.value;
      assert ParseQuestions(m, data, len, rest, count, questions, realSize) ==
             ParseQuestions(m, data + q.len, len, WrappedMinus(TWO_TO_THE_32, rest, q.len), count, questions + [q],
                            realSize + q.len);
      questions := questions + [q];
      rest := WrappedMinus(TWO_TO_THE_32, rest, q.len);
      data := data + q.len;
      realSize := realSize + q.len;
    }
    return Got(Zone(true, questions, realSize));
  }

  method ReadAddresses(mem: array<byte>, base: nat, at: nat, count: nat) returns (r: Access<seq<nat>>)
    requires base <= mem.Length
    ensures r == Addresses(mem[base..], at, count, [])
  {
    ghost var m := mem[base..];
    var ips: seq<nat> := [];
    for i := 0 to count
      invariant Addresses(m, at, count, []) == Addresses(m, at + i * 4, count - i, ips)
    {
      var ip :- ReadNumber(mem, base, at + i * 4, 4);
      assert Addresses(m, at + i * 4, count - i, ips) == Addresses(m, at + i * 4 + 4, count - i - 1, ips + [ip]);
      ips := ips + [ip];
    }
    return Got(ips);
  }

  method ReadResource(mem: array<byte>, base: nat, size: nat, begin: nat) returns (r: Access<Option<Resource>>)
    requires base <= mem.Length
    ensures r == ParseResource(mem[base..], size, begin)
  {
    var owner :- ParseRe(mem, base, size, begin, WrappedMinus(TWO_TO_THE_64, size, begin), 0, []);
    if owner.consumed == 0 {
      return Got(None);
    }
    r := ReadFields(mem, base, size, begin + owner.consumed, owner);
  }

  method ReadFields(mem: array<byte>, base: nat, size: nat, p: nat, owner: Name) returns (r: Access<Option<Resource>>)
    requires base <= mem.Length
    ensures r == ParseFields(mem[base..], size, p, owner)
  {
    var cur := p;
    var rtype :- ReadNumber(mem, base, cur, 2);
    cur := cur + 2;
    var rclass :- ReadNumber(mem, base, cur, 2);
    cur := cur + 2;
    var ttl :- ReadNumber(mem, base, cur, 4);
    cur := cur + 4;
    var length :- ReadNumber(mem, base, cur, 2);
    cur := cur + 2;
    var total := owner.consumed + 10 + length;
    if rtype == TYPE_CNAME {
      var cname :- ParseRe(mem, base, size, cur, length, 0, []);
      if cname.consumed == 0 {
        return Got(None);
      }
      return Got(Some(Resource(owner.text, rtype, rclass, ttl, Some(cname.text), [], total)));
    } else if length % 4 == 0 {
      var ips :- ReadAddresses(mem, base, cur, length / 4);
      return Got(Some(Resource(owner.text, rtype, rclass, ttl, None, ips, total)));
    }
    return Got(None);
  }

  /** `udp_response`: a buffer and what `parse` makes of it. */
  class UdpResponse {
    const data: array<byte>
    const base: nat
    var valid: bool
    var len: nat
    var header: Option<Header>
    var queryZone: Option<Zone>
    var answerZones: seq<Resource>
    var ips: seq<nat>

    constructor (data: array<byte>, base: nat)
      requires base <= data.Length
      ensures this.data == data && this.base == base && Fresh()
    {
      this.data, this.base := data, base;
      valid, len, header, queryZone, answerZones, ips := true, 0, None, None, [], [];
    }

    predicate Fresh()
      reads this
    {
      base <= data.Length && header.None? && queryZone.None? && answerZones == [] && ips == []
    }

    function Parsed(): Response
      reads this
    {
      Response(valid, header, queryZone, answerZones, ips)
    }

    /** `udp_response::parse` on a response object that holds no result yet. */
    method Parse(readable: nat) returns (r: Access<bool>)
      requires Fresh()
      modifies this
      ensures match ParseResponse(data[base..], readable)
              case Overrun => r == Overrun
              case Got(response) => r == Got(valid) && Parsed() == response && len == readable
    {
      hide ParseAnswers, ParseQuestions;
      valid := true;
      if readable > HEADER_LEN {
        ghost var m := data[base..];
        var at := 0;
        var parsedAll := false;
        while valid && !parsedAll
          invariant base <= data.Length && (header.None? ==> Fresh() && valid && !parsedAll)
          invariant header.Some? && queryZone.None? && valid && !parsedAll ==>
                      answerZones == [] && ips == [] && at == HEADER_LEN &&
                      ParseResponse(m, readable) == BodyOf(m, readable, header.value)
          invariant header.Some? && queryZone.Some? && valid && |answerZones| < header.value.answerCount ==>
                      !parsedAll && answerZones == [] && ips == [] && at == HEADER_LEN + queryZone.value.len &&
                      header.value.rcode == 0 &&
                      ParseResponse(m, readable) == AnswersOf(m, readable, header.value, queryZone.value)
          invariant header.Some? && queryZone.Some? && |answerZones| >= header.value.answerCount ==>
                      header.value.rcode == 0
          invariant header.Some? &&
                    (!valid || parsedAll || (queryZone.Some? && |answerZones| >= header.value.answerCount))
                    ==> ParseResponse(m, readable) == Got(Parsed())
          decreases valid, !parsedAll, header.None?, queryZone.None?,
                    if header.Some? && |answerZones| < header.value.answerCount then 1 else 0
        {
          if header.None? {
            header :- ReadHeader(data, base, readable);
            at := HEADER_LEN;
          } else if header.value.rcode == 0 {
            if queryZone.None? {
              var zone :- ReadZone(data, base, at, readable - at, header.value.questionCount);
              if !zone.valid {
                valid := false;
              } else {
                queryZone := Some(zone);
                at := at + zone.len;
                assert ParseResponse(m, readable) == AnswersOf(m, readable, header.value, zone);
                NoAnswers(m, readable, HEADER_LEN + zone.len);
              }
            } else if |answerZones| < header.value.answerCount {
              r, at := ParseAnswerZones(readable, at);
              if r.Overrun? {
                return;
              }
            } else {
              parsedAll := true;
            }
          } else {
            parsedAll := true;
          }
        }
      } else {
        valid := false;
      }
      len := readable;
      return Got(valid);
    }

    /** The inner loop over the answer records, stopping at the first invalid one. */
    method ParseAnswerZones(readable: nat, start: nat) returns (r: Access<bool>, at: nat)
      requires base <= data.Length && header.Some? && valid && answerZones == [] && ips == []
      modifies `valid, `answerZones, `ips
      ensures r == Got(true) ==> |answerZones| >= header.value.answerCount
      ensures match ParseAnswers(data[base..], readable, start, header.value.answerCount, [], [])
              case Overrun => r == Overrun
              case Got(answers) => r == Got(valid) && Answers(valid, answerZones, ips) == answers
    {
      hide ParseResource;
      ghost var m := data[base..];
      var count := header.value.answerCount;
      at := start;
      while |answerZones| < count
        invariant valid
        invariant ParseAnswers(m, readable, start, count, [], []) ==
                  ParseAnswers(m, readable, at, count, answerZones, ips)
      {
        var answer := ReadResource(data, base, readable, at);
        if answer.Overrun? {
          return Overrun, at;
        }
        if answer.value.None? {
          valid := false;
          return Got(false), at;
        }
        var zone := answer.value.value;
        assert ParseAnswers(m, readable, at, count, answerZones, ips) ==
               ParseAnswers(m, readable, at + zone.len, count, answerZones + [zone], ips + zone.ips);
        at := at + zone.len;
        answerZones := answerZones + [zone];
        ips := ips + zone.ips;
      }
      return Got(true), at;
    }
  }

  /** `tcp_response::parse`: checks the length prefix, then parses the UDP form behind it. */
  method ReadTcpResponse(data: array<byte>, readable: nat) returns (r: Access<Option<UdpResponse>>)
    ensures match ParseTcpResponse(data[..], readable)
            case Overrun => r == Overrun
            case Got(None) => r == Got(None)
            case Got(Some(response)) => r.Got? && r.value.Some? && r.value.value.Parsed() == response
  {
    if readable <= 2 {
      return Got(None);
    }
    assert data[0..] == data[..];
    var size :- ReadNumber(data, 0, 0, 2);
    if size != readable - 2 {
      return Got(None);
    }
    var response := new UdpResponse(data, 2);
    var valid :- response.Parse(size);
    return Got(if valid then Some(response) else None);
  }
}
