/** Building DNS requests and responses in place, and the objects that own their buffers. */
module MessageBuilding {
  import opened Bytes
  import opened Sequences
  import opened DomainNames
  import opened DnsMessages

  const QUERY_FLAGS := 0x0100
  const ANSWER_FLAGS := 0x8080
  const BUFFER_SIZE := 1024
  const SINGLE_IP_LEN := 16
  const MAX_LEN := 512
  const MAX_ANSWERS := 5

  // ----- The bytes of a message -----

  function EncodeHeader(id: nat, flags: nat, questions: nat, answers: nat): seq<byte> {
    ToBytes(id, 2) + ToBytes(flags, 2) + ToBytes(questions, 2) + ToBytes(answers, 2) + ToBytes(0, 2) + ToBytes(0, 2)
  }

  lemma HeaderSize(id: nat, flags: nat, questions: nat, answers: nat)
    ensures |EncodeHeader(id, flags, questions, answers)| == HEADER_LEN
  {
  }

  function EncodeQuestion(labels: seq<Text>, qtype: nat, qclass: nat): seq<byte> {
    EncodeName(labels) + (ToBytes(qtype, 2) + ToBytes(qclass, 2))
  }

  /** The questions of type A that ask for `hosts`. */
  function EncodeHosts(hosts: seq<Text>): seq<byte> {
    if hosts == [] then []
    else EncodeHosts(hosts[..|hosts| - 1]) + EncodeQuestion(HostLabels(hosts[|hosts| - 1]), TYPE_A, 1)
  }

  function EncodeRequest(id: nat, hosts: seq<Text>): seq<byte> {
    EncodeHeader(id, QUERY_FLAGS, |hosts|, 0) + EncodeHosts(hosts)
  }

  /** An A record whose owner is a pointer to the first question. */
  function EncodeAddress(ip: nat, ttl: nat): (bs: seq<byte>)
    ensures |bs| == SINGLE_IP_LEN
  {
    [192, HEADER_LEN] + ToBytes(TYPE_A, 2) + ToBytes(1, 2) + ToBytes(ttl, 4) + ToBytes(4, 2) + ToBytes(ip, 4)
  }

  function EncodeAddresses(ips: seq<nat>, ttl: nat): (bs: seq<byte>)
    ensures |bs| == SINGLE_IP_LEN * |ips|
  {
    if ips == [] then [] else EncodeAddresses(ips[..|ips| - 1], ttl) + EncodeAddress(ips[|ips| - 1], ttl)
  }

  /** How many of `count` records are written behind `len` bytes before the 512-byte cut-off. */
  function RecordsWritten(len: nat, count: nat): nat
    decreases count
  {
    if count == 0 || len + SINGLE_IP_LEN >= MAX_LEN then 0 else 1 + RecordsWritten(len + SINGLE_IP_LEN, count - 1)
  }

  /** The addresses a response may hold. */
  function FirstIps(ips: seq<nat>): seq<nat> {
    if |ips| >= MAX_ANSWERS then ips[..MAX_ANSWERS] else ips
  }

  /** The response to a request with the given question bytes. */
  function EncodeResponse(id: nat, questions: nat, zone: seq<byte>, ips: seq<nat>, ttl: nat): seq<byte> {
    var picked := FirstIps(ips);
    var written := RecordsWritten(HEADER_LEN + |zone|, |picked|);
    EncodeHeader(id, ANSWER_FLAGS, questions, |picked|) + zone + EncodeAddresses(Take(picked, written), ttl)
  }

  function Take<T>(s: seq<T>, n: nat): seq<T> {
    if n <= |s| then s[..n] else s
  }

  /** All addresses of a record of up to five, and the first five of any other. */
  lemma FirstIpsAre(ips: seq<nat>)
    ensures FirstIps(ips) == if |ips| <= 5 then ips else ips[..5]
  {
    assert |ips| == 5 ==> ips[..5] == ips;
  }

  /** As many records are written as stay below 512 bytes: all of them, or so many that one more would reach 512. */
  lemma {:induction false} RecordsWrittenBound(len: nat, count: nat)
    ensures RecordsWritten(len, count) <= count
    ensures RecordsWritten(len, count) > 0 ==> len + 16 * RecordsWritten(len, count) < 512
    ensures RecordsWritten(len, count) < count ==> len + 16 * (RecordsWritten(len, count) + 1) >= 512
    decreases count
  {
    if count > 0 && len + SINGLE_IP_LEN < MAX_LEN {
      RecordsWrittenBound(len + SINGLE_IP_LEN, count - 1);
    }
  }

  lemma EncodeHostsNext(hosts: seq<Text>, k: nat)
    requires k < |hosts|
    ensures EncodeHosts(hosts[..k + 1]) == EncodeHosts(hosts[..k]) + EncodeQuestion(HostLabels(hosts[k]), TYPE_A, 1)
  {
    assert hosts[..k + 1][..k] == hosts[..k];
  }

  /** The hosts that names stand for: each up to its first NUL. */
  function CStrings(names: seq<Text>): (hosts: seq<Text>)
    ensures |hosts| == |names|
  {
    seq(|names|, i requires 0 <= i < |names| => CString(names[i]))
  }

  // ----- Requests for any names -----

  /** The default type and class. */
  const QUESTION_FLAGS: seq<byte> := [0x00, 0x01, 0x00, 0x01]

  /**
   * Memory after a question has been written. The type and class go behind the length that `generate` reports, which
   * may not be what it wrote.
   */
  function AfterQuestion(mem: seq<byte>, at: nat, name: Text): (r: Access<seq<byte>>)
    ensures r.Got? ==> |r.value| == |mem|
  {
    var bs :- Encoding(name);
    var end := at + |CString(name)| + 2;
    if at + |bs| > |mem| || end + 4 > |mem| then Overrun
    else Got(Stored(Stored(mem, at, bs), end, QUESTION_FLAGS))
  }

  function QuestionsSize(names: seq<Text>): nat {
    if names == [] then 0 else QuestionsSize(names[..|names| - 1]) + |CString(names[|names| - 1])| + 6
  }

  function AfterQuestions(mem: seq<byte>, at: nat, names: seq<Text>): (r: Access<seq<byte>>)
    ensures r.Got? ==> |r.value| == |mem|
  {
    if names == [] then Got(mem)
    else
      var front := names[..|names| - 1];
      var m :- AfterQuestions(mem, at, front);
      AfterQuestion(m, at + QuestionsSize(front), names[|names| - 1])
  }

  /** Memory after `init`: header, questions, and a copy of the questions' bytes behind them. */
  function AfterInit(mem: seq<byte>, base: nat, id: nat, names: seq<Text>): (r: Access<seq<byte>>)
    ensures r.Got? ==> |r.value| == |mem| && base + HEADER_LEN <= |mem|
  {
    if base + HEADER_LEN > |mem| then Overrun
    else
      HeaderSize(id, QUERY_FLAGS, |names|, 0);
      var first, size := base + HEADER_LEN, QuestionsSize(names);
      var m :- AfterQuestions(Stored(mem, base, EncodeHeader(id, QUERY_FLAGS, |names|, 0)), first, names);
      if first + 2 * size > |m| then Overrun else Got(Stored(m, first + size, m[first..first + size]))
  }

  /** Memory after the `tcp_request` constructor: the length in front of the request. */
  function AfterInitTcp(mem: seq<byte>, id: nat, names: seq<Text>): Access<seq<byte>> {
    var m :- AfterInit(mem, 2, id, names);
    Got(Stored(m, 0, ToBytes(HEADER_LEN + QuestionsSize(names), 2)))
  }

  lemma {:induction false} OverrunStays(mem: seq<byte>, at: nat, names: seq<Text>, k: nat)
    requires k <= |names| && AfterQuestions(mem, at, names[..k]).Overrun?
    ensures AfterQuestions(mem, at, names).Overrun?
  {
    if k == |names| {
      assert names[..k] == names;
    } else {
      var front := names[..|names| - 1];
      assert front[..k] == names[..k];
      OverrunStays(mem, at, front, k);
    }
  }

  lemma FittingQuestion(mem: seq<byte>, at: nat, name: Text)
    requires HostFits(CString(name)) && at + |CString(name)| + 6 <= |mem|
    ensures var question := EncodeQuestion(HostLabels(CString(name)), TYPE_A, 1);
            |question| == |CString(name)| + 6 && AfterQuestion(mem, at, name) == Got(Stored(mem, at, question))
  {
    hide Stored, HostLabels, Encoding, StrLen;
    var encoded := EncodeName(HostLabels(CString(name)));
    EncodingOfFitting(name);
    QuestionLength(CString(name));
    assert QUESTION_FLAGS == ToBytes(TYPE_A, 2) + ToBytes(1, 2) by {
      assert Digit(1, 1) == 0 && Digit(1, 0) == 1;
    }
    StoredTwice(mem, at, encoded, QUESTION_FLAGS);
  }

  /** Questions for fitting names stand one behind the other. */
  lemma {:induction false} FittingQuestions(mem: seq<byte>, at: nat, names: seq<Text>)
    requires forall n :: n in names ==> HostFits(CString(n))
    requires at + |EncodeHosts(CStrings(names))| <= |mem|
    ensures QuestionsSize(names) == |EncodeHosts(CStrings(names))|
    ensures AfterQuestions(mem, at, names) == Got(Stored(mem, at, EncodeHosts(CStrings(names))))
  {
    hide Stored, StrLen, EncodeQuestion, AfterQuestion, HostFits;
    if names == [] {
      StoredNothing(mem, at);
    } else {
      var front, last, hosts := names[..|names| - 1], names[|names| - 1], CStrings(names);
      assert hosts[..|hosts| - 1] == CStrings(front);
      PrefixMembers(names, |names| - 1);
      assert last in names;
      QuestionLength(CString(last));
      FittingQuestions(mem, at, front);
      var done := EncodeHosts(CStrings(front));
      FittingQuestion(Stored(mem, at, done), at + |done|, last);
      StoredTwice(mem, at, done, EncodeQuestion(HostLabels(CString(last)), TYPE_A, 1));
    }
  }

  lemma RequestSize(id: nat, hosts: seq<Text>)
    ensures |EncodeRequest(id, hosts)| == HEADER_LEN + |EncodeHosts(hosts)|
  {
  }

  /** For fitting names and room for a second copy, `init` writes the request and the questions once more. */
  lemma InitWritesRequest(mem: seq<byte>, base: nat, id: nat, names: seq<Text>)
    requires forall n :: n in names ==> HostFits(CString(n))
    requires base + HEADER_LEN + 2 * |EncodeHosts(CStrings(names))| <= |mem|
    ensures var hosts := CStrings(names);
            |EncodeRequest(id, hosts)| == HEADER_LEN + QuestionsSize(names) &&
            QuestionsSize(names) == |EncodeHosts(hosts)| &&
            AfterInit(mem, base, id, names) == Got(Stored(mem, base, EncodeRequest(id, hosts) + EncodeHosts(hosts)))
  {
    hide Stored, EncodeHosts, EncodeHeader, QuestionsSize, AfterQuestions, HostFits;
    var hosts, first := CStrings(names), base + HEADER_LEN;
    var head, body := EncodeHeader(id, QUERY_FLAGS, |names|, 0), EncodeHosts(hosts);
    HeaderSize(id, QUERY_FLAGS, |names|, 0);
    RequestSize(id, hosts);
    FittingQuestions(Stored(mem, base, head), first, names);
    StoredTwice(mem, base, head, body);
    StoredSlice(Stored(mem, base, head), first, body);
    StoredTwice(mem, base, head + body, body);
  }

  /** The TCP buffer then begins with the length of the request and the request. */
  lemma InitTcpWritesRequest(mem: seq<byte>, id: nat, names: seq<Text>)
    requires forall n :: n in names ==> HostFits(CString(n))
    requires 2 + HEADER_LEN + 2 * |EncodeHosts(CStrings(names))| <= |mem|
    ensures var r, message := AfterInitTcp(mem, id, names), EncodeRequest(id, CStrings(names));
            r.Got? && |r.value| >= 2 + |message| && r.value[..2 + |message|] == ToBytes(|message|, 2) + message
  {
    hide Stored, EncodeRequest, EncodeHosts, ToBytes, QuestionsSize, AfterInit, HostFits;
    InitWritesRequest(mem, 2, id, names);
    var message, copy := EncodeRequest(id, CStrings(names)), EncodeHosts(CStrings(names));
    LengthPrefix(mem, Stored(mem, 2, message + copy), message, copy, ToBytes(|message|, 2));
  }

  /** A two-byte prefix written in front of a message leaves prefix and message one behind the other. */
  lemma LengthPrefix(start: seq<byte>, written: seq<byte>, message: seq<byte>, copy: seq<byte>, prefix: seq<byte>)
    requires |prefix| == 2 && 2 + |message| + |copy| <= |start| && written == Stored(start, 2, message + copy)
    ensures Stored(written, 0, prefix)[..2 + |message|] == prefix + message
  {
    assert written[2..2 + |message|] == message;
  }

  // ----- Writing in place -----

  /** `dns_header::init`: six 16-bit numbers, each written high byte first. */
  method WriteHeader(mem: array<byte>, at: nat, id: nat, flags: nat, questions: nat, answers: nat)
    requires at + HEADER_LEN <= mem.Length
    modifies mem
    ensures mem[..] == Stored(old(mem[..]), at, EncodeHeader(id, flags, questions, answers))
  {
    hide Stored, ToBytes;
    ghost var start, done := mem[..], [];
    StoredNothing(start, at);
    var fields := [id, flags, questions, answers, 0, 0];
    for i := 0 to 6
      invariant |done| == 2 * i && mem[..] == Stored(start, at, done)
      invariant i >= 1 ==> done[..2] == ToBytes(id, 2)
      invariant i >= 2 ==> done[2..4] == ToBytes(flags, 2)
      invariant i >= 3 ==> done[4..6] == ToBytes(questions, 2)
      invariant i >= 4 ==> done[6..8] == ToBytes(answers, 2)
      invariant i >= 5 ==> done[8..10] == ToBytes(0, 2)
      invariant i >= 6 ==> done[10..12] == ToBytes(0, 2)
    {
      StoredTwice(start, at, done, ToBytes(fields[i], 2));
      var next := Write(mem, at + 2 * i, fields[i], 2);
      done := done + ToBytes(fields[i], 2);
    }
    assert done == EncodeHeader(id, flags, questions, answers);
  }

  /** `dns_query::generateDomain`. */
  method WriteQuestion(mem: array<byte>, at: nat, name: Text) returns (len: Access<nat>)
    modifies mem
    ensures match AfterQuestion(old(mem[..]), at, name)
            case Overrun => len == Overrun
            case Got(m) => len == Got(|CString(name)| + 6) && mem[..] == m
  {
    hide Stored, Encoding, StrLen;
    var nameLen :- Generate(mem, at, name);
    if at + nameLen + 4 > mem.Length {
      return Overrun;
    }
    Copy(mem, at + nameLen, QUESTION_FLAGS);
    return Got(nameLen + 4);
  }

  /** `dns_resource_zone::generate`. */
  method WriteAddress(mem: array<byte>, at: nat, ip: nat, ttl: nat) returns (next: nat)
    requires at + SINGLE_IP_LEN <= mem.Length
    modifies mem
    ensures next == at + SINGLE_IP_LEN
    ensures mem[..] == Stored(old(mem[..]), at, EncodeAddress(ip, ttl))
  {
    hide Stored, ToBytes;
    ghost var start := mem[..];
    StoredTwice(start, at, [192], [HEADER_LEN]);
    StoreByte(mem, at, 192);
    StoreByte(mem, at + 1, HEADER_LEN);
    ghost var done: seq<byte> := [192] + [HEADER_LEN];
    assert done == [192, HEADER_LEN];
    StoredTwice(start, at, done, ToBytes(TYPE_A, 2));
    next := Write(mem, at + 2, TYPE_A, 2);
    done := done + ToBytes(TYPE_A, 2);
    StoredTwice(start, at, done, ToBytes(1, 2));
    next := Write(mem, next, 1, 2);
    done := done + ToBytes(1, 2);
    StoredTwice(start, at, done, ToBytes(ttl, 4));
    next := Write(mem, next, ttl, 4);
    done := done + ToBytes(ttl, 4);
    StoredTwice(start, at, done, ToBytes(4, 2));
    next := Write(mem, next, 4, 2);
    done := done + ToBytes(4, 2);
    StoredTwice(start, at, done, ToBytes(ip, 4));
    next := Write(mem, next, ip, 4);
  }

  /** The question loop of `dns_query_zone::generate`. */
  method WriteQuestions(mem: array<byte>, at: nat, names: seq<Text>) returns (size: Access<nat>)
    modifies mem
    ensures match AfterQuestions(old(mem[..]), at, names)
            case Overrun => size == Overrun
            case Got(m) => size == Got(QuestionsSize(names)) && mem[..] == m
  {
    hide AfterQuestion, StrLen;
    ghost var start := mem[..];
    var done := 0;
    for k := 0 to |names|
      invariant done == QuestionsSize(names[..k])
      invariant AfterQuestions(start, at, names[..k]) == Got(mem[..])
    {
      assert names[..k + 1][..k] == names[..k];
      if AfterQuestions(start, at, names[..k + 1]).Overrun? {
        OverrunStays(start, at, names, k + 1);
      }
      var len :- WriteQuestion(mem, at + done, names[k]);
      done := done + len;
    }
    assert names[..|names|] == names;
    return Got(done);
  }

  lemma QuestionLength(host: Text)
    ensures |EncodeQuestion(HostLabels(host), TYPE_A, 1)| == |host| + 6
  {
    EncodedLength(host, 0, 0);
  }

  method CollectHosts(questions: seq<Question>) returns (hosts: seq<Text>)
    ensures hosts == QuestionHosts(questions)
  {
    hosts := [];
    for i := 0 to |questions|
      invariant hosts == QuestionHosts(questions[..i])
    {
      assert questions[..i + 1][..i] == questions[..i];
      if questions[i].name != [] {
        hosts := hosts + [questions[i].name];
      }
    }
    assert questions[..|questions|] == questions;
  }

  /** `udp_request` and, with two bytes kept free in front of `base`, `tcp_request`. */
  class UdpRequest {
    const data: array<byte>
    const base: nat
    var valid: bool
    var len: nat
    var header: Option<Header>
    var zone: Option<Zone>
    var zoneAt: nat
    var hosts: seq<Text>

    constructor (data: array<byte>, base: nat)
      requires base <= data.Length
      ensures this.data == data && this.base == base && Ready()
      ensures valid && header.None? && zone.None? && hosts == []
    {
      this.data, this.base := data, base;
      valid, len, header, zone, zoneAt, hosts := true, 0, None, None, 0, [];
    }

    /** The question zone lies inside the buffer. */
    predicate Ready()
      reads this
    {
      base <= data.Length && (zone.Some? ==> zoneAt + zone.value.len <= data.Length)
    }

    /** The bytes of the question zone. */
    function ZoneBytes(): seq<byte>
      requires Ready()
      reads this, data
    {
      if zone.None? then [] else data[zoneAt..zoneAt + zone.value.len]
    }

    function QuestionTotal(): nat
      reads this
    {
      if zone.None? then 0 else |zone.value.questions|
    }

    /**
     * `udp_request::init`. The question zone object ends up on a second copy of the questions, which is written
     * behind the message.
     */
    method Init(id: nat, names: seq<Text>) returns (r: Access<nat>)
      modifies this, data
      ensures match AfterInit(old(data[..]), base, id, names)
              case Overrun => r == Overrun
              case Got(m) =>
                data[..] == m && r == Got(len) && len == HEADER_LEN + QuestionsSize(names) && hosts == names &&
                header.Some? && header.value.id == id % TWO_TO_THE_16 && valid == old(valid) && zone.Some? &&
                zone.value.len == QuestionsSize(names) && QuestionTotal() == |names| &&
                zoneAt == base + HEADER_LEN + QuestionsSize(names) && Ready() &&
                ZoneBytes() == m[base + HEADER_LEN..base + HEADER_LEN + QuestionsSize(names)]
    {
      hide Stored, AfterQuestions, EncodeHeader, QuestionsSize;
      if base + HEADER_LEN > data.Length {
        return Overrun;
      }
      HeaderSize(id, QUERY_FLAGS, |names|, 0);
      WriteHeader(data, base, id, QUERY_FLAGS, |names|, 0);
      header := Some(Header(id % TWO_TO_THE_16, false, 0, 0, 0, 0));
      var first := base + HEADER_LEN;
      var size :- WriteQuestions(data, first, names);
      if first + 2 * size > data.Length {
        return Overrun;
      }
      zoneAt := first + size;
      ghost var questioned := data[..];
      var copy := data[first..zoneAt];
      Copy(data, zoneAt, copy);
      CopyBehind(questioned, first, size);
      var questions := seq(|names|, i requires 0 <= i < |names| =>
        Question(names[i], TYPE_A, |CString(names[i])| + 6));
      zone := Some(Zone(true, questions, size));
      hosts := names;
      len := HEADER_LEN + size;
      assert data[zoneAt..zoneAt + size] == data[..][zoneAt..zoneAt + size];
      return Got(len);
    }

    /** `udp_request::parse`. */
    method Parse(readable: nat) returns (r: Access<bool>)
      requires base <= data.Length && header.None? && zone.None? && hosts == [] && valid
      modifies this
      ensures match ParseRequest(data[base..], readable)
              case Overrun => r == Overrun
              case Got(request) =>
                r == Got(valid) && Request(valid, header, zone, hosts) == request && len == readable &&
                zoneAt == base + HEADER_LEN
      ensures r.Got? && zone.Some? ==>
                zoneAt + zone.value.len <= data.Length + 2 && zone.value.len >= 4 &&
                (Ready() <==> NumberAt(data[base..], HEADER_LEN + zone.value.len - 2, 2).Got?)
    {
      zoneAt := base + HEADER_LEN;
      len := readable;
      if readable > HEADER_LEN {
        header :- ReadHeader(data, base, HEADER_LEN);
        var questions :- ReadZone(data, base, HEADER_LEN, readable - HEADER_LEN, header.value.questionCount);
        ZoneEnds(data[base..], HEADER_LEN, readable - HEADER_LEN, header.value.questionCount);
        if questions.valid {
          if |questions.questions| == 0 {
            valid := false;
          } else {
            zone := Some(questions);
            hosts := CollectHosts(questions.questions);
          }
        } else {
          valid := false;
        }
      } else {
        valid := false;
      }
      return Got(valid);
    }
  }

  /** Copying a stretch right behind itself leaves it as it was, twice. */
  lemma CopyBehind(mem: seq<byte>, first: nat, size: nat)
    requires first + 2 * size <= |mem|
    ensures var r := Stored(mem, first + size, mem[first..first + size]);
            r[first..first + size] == mem[first..first + size] == r[first + size..first + 2 * size]
  {
  }

  /** `tcp_request`: the UDP message two bytes into the buffer, behind its length. */
  method InitTcp(request: UdpRequest, id: nat, names: seq<Text>) returns (r: Access<nat>)
    requires request.base == 2
    modifies request, request.data
    ensures match AfterInitTcp(old(request.data[..]), id, names)
            case Overrun => r == Overrun
            case Got(m) =>
              request.data[..] == m && r == Got(request.len) && request.len == 2 + HEADER_LEN + QuestionsSize(names)
  {
    hide Stored, AfterInit, QuestionsSize, ToBytes;
    var len :- request.Init(id, names);
    var next := Write(request.data, 0, len, 2);
    request.len := len + 2;
    return Got(request.len);
  }

  /** The answer loop, which stops before the message would reach 512 bytes. */
  method WriteAddresses(mem: array<byte>, at: nat, ips: seq<nat>, ttl: nat) returns (next: nat, written: seq<nat>)
    requires at <= mem.Length && MAX_LEN <= mem.Length
    modifies mem
    ensures written == Take(ips, RecordsWritten(at, |ips|)) == ips[..|written|] && |written| <= |ips|
    ensures (written != [] ==> at + 16 * |written| < 512) && (|written| < |ips| ==> at + 16 * (|written| + 1) >= 512)
    ensures next == at + |EncodeAddresses(written, ttl)| <= mem.Length
    ensures mem[..] == Stored(old(mem[..]), at, EncodeAddresses(written, ttl))
  {
    hide Stored, EncodeAddress;
    RecordsWrittenBound(at, |ips|);
    ghost var start, done := mem[..], [];
    StoredNothing(start, at);
    next, written := at, [];
    while |written| < |ips| && next + SINGLE_IP_LEN < MAX_LEN
      invariant |written| <= |ips| && written == ips[..|written|]
      invariant RecordsWritten(at, |ips|) == |written| + RecordsWritten(next, |ips| - |written|)
      invariant done == EncodeAddresses(written, ttl) && next == at + |done| <= mem.Length
      invariant mem[..] == Stored(start, at, done)
      decreases |ips| - |written|
    {
      var ip := ips[|written|];
      var more := written + [ip];
      assert more[..|more| - 1] == written;
      StoredTwice(start, at, done, EncodeAddress(ip, ttl));
      next := WriteAddress(mem, next, ip, ttl);
      done := done + EncodeAddress(ip, ttl);
      written := more;
    }
  }

  /** The question zone lies inside the request's buffer and fits the response's. */
  predicate ZoneFits(request: UdpRequest)
    reads request
  {
    request.Ready() && (request.zone.Some? ==> HEADER_LEN + request.zone.value.len <= BUFFER_SIZE)
  }

  /** The `udp_response` constructor that answers a request from a stored record. */
  method BuildResponse(request: UdpRequest, recordIps: seq<nat>, ttl: nat)
    returns (len: Access<nat>, data: array<byte>, written: seq<nat>)
    requires request.base <= request.data.Length && request.header.Some?
    ensures fresh(data) && data.Length == 1024
    ensures len.Overrun? <==>
              request.zone.Some? &&
              (request.zoneAt + request.zone.value.len > request.data.Length || 12 + request.zone.value.len > 1024)
    ensures len.Got? ==>
              var total := if request.zone.Some? then |request.zone.value.questions| else 0;
              var zone := if request.zone.None? then []
                          else request.data[request.zoneAt..request.zoneAt + request.zone.value.len];
              var message := EncodeResponse(request.header.value.id, total, zone, recordIps, ttl);
              len == Got(|message|) && |message| <= BUFFER_SIZE && data[..|message|] == message
    ensures len.Got? ==>
              var front := 12 + if request.zone.Some? then request.zone.value.len else 0;
              var most := if |recordIps| <= 5 then |recordIps| else 5;
              |written| <= most && written == recordIps[..|written|] &&
              (written != [] ==> front + 16 * |written| < 512) &&
              (|written| < most ==> front + 16 * (|written| + 1) >= 512)
  {
    hide Stored, EncodeHeader, EncodeAddresses, RecordsWritten, FirstIps, Take;
    FirstIpsAre(recordIps);
    var ips := FirstIps(recordIps);
    var id, total := request.header.value.id, request.QuestionTotal();
    data := new byte[BUFFER_SIZE](_ => 0);
    if !ZoneFits(request) {
      return Overrun, data, [];
    }
    ghost var start, head, zone := data[..], EncodeHeader(id, ANSWER_FLAGS, total, |ips|), request.ZoneBytes();
    HeaderSize(id, ANSWER_FLAGS, total, |ips|);
    WriteHeader(data, 0, id, ANSWER_FLAGS, total, |ips|);
    var cur := HEADER_LEN;
    StoredTwice(start, 0, head, zone);
    if request.zone.Some? {
      var bytes := request.data[request.zoneAt..request.zoneAt + request.zone.value.len];
      Copy(data, cur, bytes);
      cur := cur + request.zone.value.len;
    } else {
      StoredNothing(data[..], cur);
    }
    var finalLen;
    finalLen, written := WriteAddresses(data, cur, ips, ttl);
    StoredTwice(start, 0, head + zone, EncodeAddresses(written, ttl));
    StoredSlice(start, 0, head + zone + EncodeAddresses(written, ttl));
    assert data[0..finalLen] == data[..finalLen];
    len := Got(finalLen);
  }
}
