/** Round trips of whole messages: what is encoded is what the parsers deliver. */
module MessageLaws {
  import opened Bytes
  import opened Sequences
  import opened DomainNames
  import opened NameLaws
  import opened DnsMessages
  import opened MessageBuilding

  // ----- Messages with uncompressed questions and A and CNAME records -----

  datatype Query = Query(labels: seq<Text>, qtype: nat, qclass: nat)

  datatype Owner = Spelled(labels: seq<Text>) | Pointer(target: nat)

  /** Record data: an address, an alias, or 32-bit words under any other type. */
  datatype Data = Address(ip: nat) | Alias(labels: seq<Text>, tail: Option<nat>) | Words(rtype: nat, words: seq<nat>)

  datatype Record = Record(owner: Owner, rclass: nat, ttl: nat, data: Data)

  /** `authority` and `additional` are the counts that the header announces besides. */
  datatype Message = Message(id: nat, flags: nat, queries: seq<Query>, records: seq<Record>, authority: nat,
                             additional: nat)

  /** A header with all four counts. */
  function EncodeHead(id: nat, flags: nat, questions: nat, answers: nat, authority: nat, additional: nat): seq<byte> {
    ToBytes(id, 2) + (ToBytes(flags, 2) + (ToBytes(questions, 2) +
    (ToBytes(answers, 2) + (ToBytes(authority, 2) + ToBytes(additional, 2)))))
  }

  lemma HeadSize(id: nat, flags: nat, questions: nat, answers: nat, authority: nat, additional: nat)
    ensures |EncodeHead(id, flags, questions, answers, authority, additional)| == HEADER_LEN
  {
  }

  lemma BuiltHead(id: nat, flags: nat, questions: nat, answers: nat)
    ensures EncodeHeader(id, flags, questions, answers) == EncodeHead(id, flags, questions, answers, 0, 0)
  {
    hide ToBytes;
    var zeros := ToBytes(0, 2);
    ConcatSix(ToBytes(id, 2), ToBytes(flags, 2), ToBytes(questions, 2), ToBytes(answers, 2), zeros, zeros);
  }

  lemma ConcatSix<T>(a: seq<T>, b: seq<T>, c: seq<T>, d: seq<T>, e: seq<T>, f: seq<T>)
    ensures a + b + c + d + e + f == a + (b + (c + (d + (e + f))))
  {
  }

  function EncodePointer(target: nat): seq<byte>
    requires target < 0x4000
  {
    [192 + target / 256, target % 256]
  }

  predicate QueryFits(q: Query) {
    LabelLengths(q.labels) && q.qtype < TWO_TO_THE_16 && q.qclass < TWO_TO_THE_16
  }

  predicate OwnerFits(owner: Owner) {
    match owner
    case Spelled(labels) => LabelLengths(labels)
    case Pointer(target) => target < 0x4000
  }

  predicate DataFits(data: Data) {
    match data
    case Address(ip) => ip < TWO_TO_THE_32
    case Alias(labels, tail) => LabelLengths(labels) && (tail.Some? ==> tail.value < 0x4000)
    case Words(rtype, words) =>
      rtype < TWO_TO_THE_16 && rtype != TYPE_CNAME && forall w :: w in words ==> w < TWO_TO_THE_32
  }

  function EncodeWords(words: seq<nat>): (bs: seq<byte>)
    ensures |bs| == 4 * |words|
  {
    if words == [] then [] else ToBytes(words[0], 4) + EncodeWords(words[1..])
  }

  predicate RecordFits(r: Record) {
    OwnerFits(r.owner) && r.rclass < TWO_TO_THE_16 && r.ttl < TWO_TO_THE_32 && DataFits(r.data) &&
    |EncodeData(r.data)| < TWO_TO_THE_16
  }

  function EncodeOwner(owner: Owner): seq<byte>
    requires OwnerFits(owner)
  {
    match owner
    case Spelled(labels) => EncodeName(labels)
    case Pointer(target) => EncodePointer(target)
  }

  function EncodeData(data: Data): seq<byte>
    requires DataFits(data)
  {
    match data
    case Address(ip) => ToBytes(ip, 4)
    case Alias(labels, None) => EncodeName(labels)
    case Alias(labels, Some(target)) => EncodeLabels(labels) + EncodePointer(target)
    case Words(_, words) => EncodeWords(words)
  }

  function RecordType(data: Data): nat {
    match data
    case Address(_) => TYPE_A
    case Alias(_, _) => TYPE_CNAME
    case Words(rtype, _) => rtype
  }

  function EncodeFields(rtype: nat, rclass: nat, ttl: nat, data: seq<byte>): seq<byte> {
    ToBytes(rtype, 2) + (ToBytes(rclass, 2) + (ToBytes(ttl, 4) + (ToBytes(|data|, 2) + data)))
  }

  function EncodeRecord(r: Record): seq<byte>
    requires RecordFits(r)
  {
    EncodeOwner(r.owner) + EncodeFields(RecordType(r.data), r.rclass, r.ttl, EncodeData(r.data))
  }

  function EncodeQueries(queries: seq<Query>): seq<byte> {
    if queries == [] then []
    else EncodeQuestion(queries[0].labels, queries[0].qtype, queries[0].qclass) + EncodeQueries(queries[1..])
  }

  function EncodeRecords(records: seq<Record>): seq<byte>
    requires forall r :: r in records ==> RecordFits(r)
  {
    if records == [] then [] else EncodeRecord(records[0]) + EncodeRecords(records[1..])
  }

  /** The message with the given answer count in its header, which may exceed the number of records. */
  function EncodeCounted(m: Message, count: nat): seq<byte>
    requires forall r :: r in m.records ==> RecordFits(r)
  {
    EncodeHead(m.id, m.flags, |m.queries|, count, m.authority, m.additional) +
    (EncodeQueries(m.queries) + EncodeRecords(m.records))
  }

  function EncodeMessage(m: Message): seq<byte>
    requires forall r :: r in m.records ==> RecordFits(r)
  {
    EncodeCounted(m, |m.records|)
  }

  function RecordIp(r: Record): seq<nat> {
    match r.data
    case Address(ip) => [ip]
    case Alias(_, _) => []
    case Words(_, words) => words
  }

  /** The addresses of the records, in order. */
  function RecordIps(records: seq<Record>): seq<nat> {
    if records == [] then [] else RecordIp(records[0]) + RecordIps(records[1..])
  }

  /** Where a pointer leads: through `hops` lone pointers to a spelled-out name. */
  datatype Spot = Spot(target: nat, hops: nat, labels: seq<Text>)

  predicate Leads(mem: seq<byte>, size: nat, p: nat, spot: Spot) {
    spot.hops < MAX_DEPTH && LabelLengths(spot.labels) && Chain(mem, size, p, spot.target, spot.hops) &&
    HoldsAt(mem, spot.target, EncodeName(spot.labels)) && spot.target + |EncodeName(spot.labels)| <= size
  }

  ghost predicate Resolvable(mem: seq<byte>, size: nat, p: nat) {
    exists spot :: Leads(mem, size, p, spot)
  }

  /** Every pointer of the record leads to a spelled-out name inside the message. */
  ghost predicate PointersResolve(mem: seq<byte>, size: nat, r: Record) {
    (r.owner.Pointer? ==> Resolvable(mem, size, r.owner.target)) &&
    (r.data.Alias? && r.data.tail.Some? ==> Resolvable(mem, size, r.data.tail.value))
  }

  /** The first `size` bytes of memory are a message without error code, and perhaps more behind it. */
  ghost predicate WellFormed(mem: seq<byte>, size: nat, m: Message) {
    m.id < TWO_TO_THE_16 && m.flags < TWO_TO_THE_16 && m.flags % 16 == 0 &&
    m.authority < TWO_TO_THE_16 && m.additional < TWO_TO_THE_16 &&
    |m.queries| < TWO_TO_THE_16 && |m.records| < TWO_TO_THE_16 &&
    (forall q :: q in m.queries ==> QueryFits(q)) &&
    (forall r :: r in m.records ==> RecordFits(r)) &&
    HEADER_LEN < size < TWO_TO_THE_32 && |EncodeMessage(m)| <= size &&
    forall r :: r in m.records ==> PointersResolve(mem, size, r)
  }

  // ----- Names with pointers -----

  lemma EncodedPointer(mem: seq<byte>, p: nat, target: nat)
    requires target < 0x4000 && HoldsAt(mem, p, EncodePointer(target))
    ensures mem[p] >= 192 && PointerAt(mem, p) == target
  {
    assert mem[p..p + 2][0] == 192 + target / 256 && mem[p..p + 2][1] == target % 256;
  }

  /** A pointer never leads to a name through itself. */
  lemma LeadsElsewhere(mem: seq<byte>, size: nat, p: nat, target: nat, spot: Spot)
    requires target < 0x4000 && HoldsAt(mem, p, EncodePointer(target)) && Leads(mem, size, target, spot)
    ensures target != p
  {
    EncodedPointer(mem, p, target);
    if spot.hops == 0 {
      NameStart(mem, target, spot.labels);
    }
  }

  /** A spelled-out name starts with a label length or the final zero, never with a pointer. */
  lemma NameStart(mem: seq<byte>, p: nat, labels: seq<Text>)
    requires LabelLengths(labels) && HoldsAt(mem, p, EncodeName(labels))
    ensures mem[p] < 64
  {
    assert mem[p] == mem[p..p + |EncodeName(labels)|][0] == EncodeName(labels)[0];
    if labels != [] {
      assert labels[0] in labels;
      assert EncodeLabels(labels)[0] == |labels[0]| % 256;
    }
  }

  /** What a name spells: its labels joined with dots. */
  function Spell(labels: seq<Text>): Text {
    AppendLabels([], labels)
  }

  /** `p` leads to a name, and wherever it leads to one, that name spells `text`. */
  ghost predicate Names(mem: seq<byte>, size: nat, p: nat, text: Text) {
    Resolvable(mem, size, p) && forall spot :: Leads(mem, size, p, spot) ==> Spell(spot.labels) == text
  }

  /** The text that an owner stands for. */
  ghost predicate OwnerIs(mem: seq<byte>, size: nat, owner: Owner, text: Text) {
    match owner
    case Spelled(labels) => text == Spell(labels)
    case Pointer(target) => Names(mem, size, target, text)
  }

  /** The text that an alias stands for: its labels, a dot and the name its pointer leads to. */
  ghost predicate AliasIs(mem: seq<byte>, size: nat, data: Data, text: Text)
    requires data.Alias?
  {
    match data.tail
    case None => text == Spell(data.labels)
    case Some(target) =>
      exists tail :: Names(mem, size, target, tail) && text == JoinTail(Spell(data.labels), tail)
  }

  function JoinTail(text: Text, tail: Text): Text {
    if text == [] then tail else text + [DOT] + tail
  }

  /** Whatever leads from the target to a name, the parser reads that name. */
  lemma ReadTarget(mem: seq<byte>, size: nat, target: nat, depth: nat) returns (text: Text)
    requires size < TWO_TO_THE_64 && depth <= 1 && Resolvable(mem, size, target)
    ensures Names(mem, size, target, text)
    ensures var r := ParseName(mem, size, target, WrappedMinus(TWO_TO_THE_64, size, target), depth, []);
            r.Got? && r.value.consumed != 0 && r.value.text == text
  {
    hide ParseFrames, Leads;
    var r := ParseName(mem, size, target, WrappedMinus(TWO_TO_THE_64, size, target), depth, []);
    forall spot | Leads(mem, size, target, spot)
      ensures r.Got? && r.value.consumed != 0 && r.value.text == Spell(spot.labels)
    {
      ReadSpot(mem, size, target, depth, spot);
    }
    var spot :| Leads(mem, size, target, spot);
    text := Spell(spot.labels);
  }

  lemma ReadSpot(mem: seq<byte>, size: nat, target: nat, depth: nat, spot: Spot)
    requires size < TWO_TO_THE_64 && depth <= 1 && Leads(mem, size, target, spot)
    ensures var r := ParseName(mem, size, target, WrappedMinus(TWO_TO_THE_64, size, target), depth, []);
            r.Got? && r.value.consumed != 0 && r.value.text == Spell(spot.labels)
  {
    hide ParseFrames;
    assert target < size;
    ReadChain(mem, size, target, spot.target, spot.hops, size - target, depth, spot.labels);
  }

  /** No name is spelled out where labels end in a pointer. */
  lemma {:induction false} PointerIsNoName(mem: seq<byte>, p: nat, labels: seq<Text>, target: nat, name: seq<Text>)
    requires LabelLengths(labels) && LabelLengths(name) && target < 0x4000
    requires HoldsAt(mem, p, EncodeLabels(labels) + EncodePointer(target)) && HoldsAt(mem, p, EncodeName(name))
    ensures false
    decreases |labels|
  {
    hide HoldsAt;
    if labels == [] {
      assert EncodeLabels(labels) + EncodePointer(target) == EncodePointer(target);
      EncodedPointer(mem, p, target);
      NameStart(mem, p, name);
    } else {
      var first, rest := labels[0], labels[1..];
      assert first in labels;
      SplitFirst(mem, p, labels, EncodePointer(target));
      if name == [] {
        assert EncodeName(name) == [0];
        FirstByte(mem, p, [0]);
      } else {
        assert name[0] in name;
        SplitFirst(mem, p, name, [0]);
        PointerIsNoName(mem, p + 1 + |first|, rest, target, name[1..]);
      }
    }
  }

  lemma FirstByte(mem: seq<byte>, p: nat, bs: seq<byte>)
    requires bs != [] && HoldsAt(mem, p, bs)
    ensures p < |mem| && mem[p] == bs[0]
  {
    assert mem[p..p + |bs|][0] == mem[p];
  }

  lemma FirstFits(labels: seq<Text>)
    requires labels != [] && LabelLengths(labels)
    ensures 1 <= |labels[0]| <= 63 && LabelLengths(labels[1..])
    ensures EncodeLabels(labels) == [|labels[0]|] + labels[0] + EncodeLabels(labels[1..])
  {
    assert labels[0] in labels;
  }

  lemma SplitFirst(mem: seq<byte>, p: nat, labels: seq<Text>, end: seq<byte>)
    requires labels != [] && LabelLengths(labels) && HoldsAt(mem, p, EncodeLabels(labels) + end)
    ensures p < |mem| && mem[p] == |labels[0]| > 0 && LabelLengths(labels[1..])
    ensures HoldsAt(mem, p + 1 + |labels[0]|, EncodeLabels(labels[1..]) + end)
  {
    hide HoldsAt, EncodeLabels, LabelLengths;
    var first, rest := labels[0], EncodeLabels(labels[1..]);
    FirstFits(labels);
    var head: seq<byte> := [|first|] + first;
    ConcatAssociative(head, rest, end);
    HoldsParts(mem, p, head, rest + end);
    FirstByte(mem, p, head);
  }

  /** A pointer behind labels never leads to a name through the place where the labels start. */
  lemma LeadsAway(mem: seq<byte>, size: nat, begin: nat, labels: seq<Text>, target: nat)
    requires LabelLengths(labels) && target < 0x4000 && Resolvable(mem, size, target)
    requires HoldsAt(mem, begin, EncodeLabels(labels) + EncodePointer(target))
    ensures target != begin
  {
    var spot :| Leads(mem, size, target, spot);
    if target == begin {
      if spot.hops == 0 {
        PointerIsNoName(mem, begin, labels, target, spot.labels);
      } else if labels == [] {
        assert EncodeLabels(labels) + EncodePointer(target) == EncodePointer(target);
        EncodedPointer(mem, begin, target);
      } else {
        SplitFirst(mem, begin, labels, EncodePointer(target));
      }
    }
  }

  /** Labels that end in a pointer, filling the space given to them, are read with the name the pointer leads to. */
  lemma ReadFilling(mem: seq<byte>, size: nat, begin: nat, length: nat, labels: seq<Text>, target: nat)
    returns (tail: Text)
    requires size < TWO_TO_THE_64 && LabelLengths(labels) && target < 0x4000 && Resolvable(mem, size, target)
    requires HoldsAt(mem, begin, EncodeLabels(labels) + EncodePointer(target))
    requires length == |EncodeLabels(labels)| + 2
    ensures Names(mem, size, target, tail)
    ensures ParseName(mem, size, begin, length, 0, []) == Got(Name(length, JoinTail(Spell(labels), tail)))
  {
    hide ParseFrames, EncodeLabels, AppendLabels, HoldsAt, Names, Resolvable;
    var at, text := |EncodeLabels(labels)|, Spell(labels);
    LeadsAway(mem, size, begin, labels, target);
    HoldsParts(mem, begin, EncodeLabels(labels), EncodePointer(target));
    EncodedPointer(mem, begin + at, target);
    ReadLabels(mem, size, begin, length, 0, 0, [], labels, at);
    tail := ReadTarget(mem, size, target, 1);
    var inner := ParseName(mem, size, target, WrappedMinus(TWO_TO_THE_64, size, target), 1, []).value;
    if text == [] {
      OnlyPointer(mem, size, begin, length, at, target, inner);
    } else {
      PointerAfterLabels(mem, size, begin, length, 0, at, text, inner);
      FramesEnd(mem, size, begin, length, 0, length, text + [DOT] + inner.text);
    }
  }

  lemma FramesEnd(mem: seq<byte>, size: nat, begin: nat, maxParse: nat, depth: nat, at: nat, text: Text)
    requires depth <= MAX_DEPTH && at >= maxParse
    ensures ParseFrames(mem, size, begin, maxParse, depth, at, text) == Got(Name(at, text))
  {
  }

  lemma OnlyPointer(mem: seq<byte>, size: nat, begin: nat, maxParse: nat, at: nat, target: nat, inner: Name)
    requires at < maxParse && begin + at + 2 <= |mem| && mem[begin + at] >= 192 && PointerAt(mem, begin + at) == target
    requires ParseName(mem, size, target, WrappedMinus(TWO_TO_THE_64, size, target), 1, []) == Got(inner)
    requires inner.consumed != 0 && target != begin
    ensures ParseFrames(mem, size, begin, maxParse, 0, at, []) == Got(Name(at + 2, inner.text))
  {
    hide ParseFrames, WrappedMinus;
    OneTurn(mem, size, begin, maxParse, 0, at, []);
    assert FrameTurn(mem, begin, maxParse, at, []) == Jump(target);
  }

  lemma ReadOwner(mem: seq<byte>, size: nat, begin: nat, owner: Owner) returns (text: Text)
    requires size < TWO_TO_THE_64 && OwnerFits(owner) && HoldsAt(mem, begin, EncodeOwner(owner))
    requires begin + |EncodeOwner(owner)| <= size
    requires owner.Pointer? ==> Resolvable(mem, size, owner.target)
    ensures OwnerIs(mem, size, owner, text)
    ensures ParseName(mem, size, begin, size - begin, 0, []) == Got(Name(|EncodeOwner(owner)|, text))
  {
    hide ParseName, Names;
    match owner
    case Spelled(labels) =>
      ReadSpelledName(mem, size, begin, size - begin, 0, labels);
      text := Spell(labels);
    case Pointer(target) =>
      text := ReadPointer(mem, size, begin, target);
  }

  lemma ReadPointer(mem: seq<byte>, size: nat, begin: nat, target: nat) returns (text: Text)
    requires size < TWO_TO_THE_64 && target < 0x4000 && HoldsAt(mem, begin, EncodePointer(target)) && begin + 2 <= size
    requires Resolvable(mem, size, target)
    ensures Names(mem, size, target, text)
    ensures ParseName(mem, size, begin, size - begin, 0, []) == Got(Name(2, text))
  {
    hide ParseName, Leads, Names;
    var spot :| Leads(mem, size, target, spot);
    LeadsElsewhere(mem, size, begin, target, spot);
    EncodedPointer(mem, begin, target);
    text := ReadTarget(mem, size, target, 1);
    LonePointer(mem, size, begin, size - begin, 0);
  }

  lemma ReadAlias(mem: seq<byte>, size: nat, begin: nat, data: Data) returns (text: Text)
    requires size < TWO_TO_THE_64 && data.Alias? && DataFits(data) && HoldsAt(mem, begin, EncodeData(data))
    requires data.tail.Some? ==> Resolvable(mem, size, data.tail.value)
    ensures AliasIs(mem, size, data, text)
    ensures ParseName(mem, size, begin, |EncodeData(data)|, 0, []) == Got(Name(|EncodeData(data)|, text))
  {
    hide ParseName, Names;
    match data.tail
    case None =>
      ReadSpelledName(mem, size, begin, |EncodeData(data)|, 0, data.labels);
      text := Spell(data.labels);
    case Some(target) =>
      var tail := ReadFilling(mem, size, begin, |EncodeData(data)|, data.labels, target);
      text := JoinTail(Spell(data.labels), tail);
  }

  // ----- Records -----

  lemma ReadEncodedNumber(mem: seq<byte>, at: nat, v: nat, width: nat, rest: seq<byte>)
    requires HoldsAt(mem, at, ToBytes(v, width) + rest) && v < Power(256, width)
    ensures NumberAt(mem, at, width) == Got(v) && HoldsAt(mem, at + width, rest)
  {
    HoldsParts(mem, at, ToBytes(v, width), rest);
    NumberAtEncoded(mem, at, v, width);
  }

  lemma ReadFieldNumbers(mem: seq<byte>, p: nat, rtype: nat, rclass: nat, ttl: nat, data: seq<byte>)
    requires HoldsAt(mem, p, EncodeFields(rtype, rclass, ttl, data))
    requires rtype < TWO_TO_THE_16 && rclass < TWO_TO_THE_16 && ttl < TWO_TO_THE_32 && |data| < TWO_TO_THE_16
    ensures NumberAt(mem, p, 2) == Got(rtype) && NumberAt(mem, p + 2, 2) == Got(rclass)
    ensures NumberAt(mem, p + 4, 4) == Got(ttl) && NumberAt(mem, p + 8, 2) == Got(|data|)
    ensures HoldsAt(mem, p + 10, data)
  {
    hide NumberAt, HoldsAt;
    Powers();
    var d := ToBytes(|data|, 2) + data;
    ReadEncodedNumber(mem, p, rtype, 2, ToBytes(rclass, 2) + (ToBytes(ttl, 4) + d));
    ReadEncodedNumber(mem, p + 2, rclass, 2, ToBytes(ttl, 4) + d);
    ReadEncodedNumber(mem, p + 4, ttl, 4, d);
    ReadEncodedNumber(mem, p + 8, |data|, 2, data);
  }

  /** What parsing a record must deliver. */
  ghost predicate Delivers(mem: seq<byte>, size: nat, zone: Resource, r: Record)
    requires RecordFits(r)
  {
    zone.len == |EncodeRecord(r)| && zone.rtype == RecordType(r.data) && zone.rclass == r.rclass &&
    zone.ttl == r.ttl && zone.ips == RecordIp(r) && OwnerIs(mem, size, r.owner, zone.owner) &&
    CnameIs(mem, size, r.data, zone.cname)
  }

  ghost predicate CnameIs(mem: seq<byte>, size: nat, data: Data, cname: Option<Text>) {
    if data.Alias? then cname.Some? && AliasIs(mem, size, data, cname.value) else cname.None?
  }

  lemma {:induction false} ReadWords(mem: seq<byte>, at: nat, words: seq<nat>, done: seq<nat>)
    requires (forall w :: w in words ==> w < TWO_TO_THE_32) && HoldsAt(mem, at, EncodeWords(words))
    ensures Addresses(mem, at, |words|, done) == Got(done + words)
    decreases |words|
  {
    hide NumberAt, HoldsAt, ToBytes;
    if words == [] {
      ConcatEmpty(done);
    } else {
      Powers();
      assert words[0] in words && forall w :: w in words[1..] ==> w in words;
      ReadEncodedNumber(mem, at, words[0], 4, EncodeWords(words[1..]));
      ReadWords(mem, at + 4, words[1..], done + [words[0]]);
      ConcatAssociative(done, [words[0]], words[1..]);
      assert words == [words[0]] + words[1..];
    }
  }

  lemma OneWord(ip: nat)
    ensures EncodeWords([ip]) == ToBytes(ip, 4)
  {
    hide ToBytes;
    assert [ip][1..] == [];
    ConcatEmpty(ToBytes(ip, 4));
  }

  lemma ReadFieldsOf(mem: seq<byte>, size: nat, p: nat, owner: Name, r: Record) returns (zone: Resource)
    requires size < TWO_TO_THE_32 && RecordFits(r) && PointersResolve(mem, size, r)
    requires HoldsAt(mem, p, EncodeFields(RecordType(r.data), r.rclass, r.ttl, EncodeData(r.data)))
    ensures ParseFields(mem, size, p, owner) == Got(Some(zone)) && zone.owner == owner.text
    ensures zone.len == owner.consumed + 10 + |EncodeData(r.data)| && zone.rtype == RecordType(r.data)
    ensures zone.rclass == r.rclass && zone.ttl == r.ttl && zone.ips == RecordIp(r)
    ensures CnameIs(mem, size, r.data, zone.cname)
  {
    hide ParseName, EncodeFields, NumberAt, HoldsAt, Addresses, AliasIs, Resolvable;
    var data := EncodeData(r.data);
    ReadFieldNumbers(mem, p, RecordType(r.data), r.rclass, r.ttl, data);
    if r.data.Alias? {
      var cname := ReadAlias(mem, size, p + 10, r.data);
      NotEmpty(r.data);
      zone := Resource(owner.text, TYPE_CNAME, r.rclass, r.ttl, Some(cname), [], owner.consumed + 10 + |data|);
    } else {
      var words := RecordIp(r);
      WordsOfData(r);
      ReadWords(mem, p + 10, words, []);
      ConcatEmpty(words);
      zone := Resource(owner.text, RecordType(r.data), r.rclass, r.ttl, None, words, owner.consumed + 10 + |data|);
    }
  }

  lemma WordsOfData(r: Record)
    requires RecordFits(r) && !r.data.Alias?
    ensures EncodeData(r.data) == EncodeWords(RecordIp(r)) && forall w :: w in RecordIp(r) ==> w < TWO_TO_THE_32
  {
    if r.data.Address? {
      OneWord(r.data.ip);
    }
  }

  lemma NotEmpty(data: Data)
    requires data.Alias? && DataFits(data)
    ensures |EncodeData(data)| > 0
  {
  }

  /** Data of another type whose length is no multiple of four makes its record invalid. */
  lemma OddDataRejected(mem: seq<byte>, size: nat, p: nat, owner: Name, rtype: nat, rclass: nat, ttl: nat,
                        data: seq<byte>)
    requires HoldsAt(mem, p, EncodeFields(rtype, rclass, ttl, data)) && rtype != 5 && |data| % 4 != 0
    requires rtype < TWO_TO_THE_16 && rclass < TWO_TO_THE_16 && ttl < TWO_TO_THE_32 && |data| < TWO_TO_THE_16
    ensures ParseFields(mem, size, p, owner) == Got(None)
  {
    hide ParseName, EncodeFields, NumberAt, HoldsAt, Addresses;
    ReadFieldNumbers(mem, p, rtype, rclass, ttl, data);
  }

  lemma ReadRecord(mem: seq<byte>, size: nat, begin: nat, r: Record) returns (zone: Resource)
    requires size < TWO_TO_THE_32 && RecordFits(r) && HoldsAt(mem, begin, EncodeRecord(r))
    requires begin + |EncodeRecord(r)| <= size && PointersResolve(mem, size, r)
    ensures ParseResource(mem, size, begin) == Got(Some(zone)) && Delivers(mem, size, zone, r)
  {
    hide ParseName, ParseFields, OwnerIs, CnameIs, Resolvable, HoldsAt;
    var fields := EncodeFields(RecordType(r.data), r.rclass, r.ttl, EncodeData(r.data));
    HoldsParts(mem, begin, EncodeOwner(r.owner), fields);
    var text := ReadOwner(mem, size, begin, r.owner);
    var owner := Name(|EncodeOwner(r.owner)|, text);
    OwnerNotEmpty(r.owner);
    zone := ReadFieldsOf(mem, size, begin + owner.consumed, owner, r);
  }

  lemma OwnerNotEmpty(owner: Owner)
    requires OwnerFits(owner)
    ensures |EncodeOwner(owner)| > 0
  {
  }

  lemma AnswerStep(mem: seq<byte>, size: nat, begin: nat, count: nat, zones: seq<Resource>, ips: seq<nat>,
                   zone: Resource)
    requires |zones| < count && ParseResource(mem, size, begin) == Got(Some(zone))
    ensures ParseAnswers(mem, size, begin, count, zones, ips) ==
            ParseAnswers(mem, size, begin + zone.len, count, zones + [zone], ips + zone.ips)
  {
    hide ParseResource;
  }

  /** The answer loop gets past every well-formed record, collecting its addresses. */
  lemma {:induction false} ReadRecords(mem: seq<byte>, size: nat, begin: nat, count: nat, zones: seq<Resource>,
                                       ips: seq<nat>, records: seq<Record>) returns (found: seq<Resource>)
    requires size < TWO_TO_THE_32 && |zones| + |records| <= count
    requires forall r :: r in records ==> RecordFits(r) && PointersResolve(mem, size, r)
    requires HoldsAt(mem, begin, EncodeRecords(records)) && begin + |EncodeRecords(records)| <= size
    ensures |found| == |records| && forall i :: 0 <= i < |found| ==> Delivers(mem, size, found[i], records[i])
    ensures ParseAnswers(mem, size, begin, count, zones, ips) ==
            ParseAnswers(mem, size, begin + |EncodeRecords(records)|, count, zones + found, ips + RecordIps(records))
    decreases |records|
  {
    hide ParseResource, PointersResolve, EncodeRecord, ParseAnswers, HoldsAt, OwnerIs, CnameIs;
    if records == [] {
      found := [];
      ConcatEmpty(zones);
      ConcatEmpty(ips);
    } else {
      var first := EncodeRecord(records[0]);
      HoldsParts(mem, begin, first, EncodeRecords(records[1..]));
      var zone := ReadRecord(mem, size, begin, records[0]);
      AnswerStep(mem, size, begin, count, zones, ips, zone);
      var rest := ReadRecords(mem, size, begin + |first|, count, zones + [zone], ips + zone.ips, records[1..]);
      found := [zone] + rest;
      ConcatAssociative(zones, [zone], rest);
      ConcatAssociative(ips, zone.ips, RecordIps(records[1..]));
    }
  }

  // ----- Questions -----

  function QuestionOf(q: Query): Question {
    Question(AppendLabels([], q.labels), q.qtype, |EncodeQuestion(q.labels, q.qtype, q.qclass)|)
  }

  function QuestionsOf(queries: seq<Query>): seq<Question> {
    if queries == [] then [] else [QuestionOf(queries[0])] + QuestionsOf(queries[1..])
  }

  lemma ReadQuery(mem: seq<byte>, len: nat, q: Query)
    requires QueryFits(q) && HoldsAt(mem, 0, EncodeQuestion(q.labels, q.qtype, q.qclass))
    requires |EncodeQuestion(q.labels, q.qtype, q.qclass)| <= len
    ensures ParseQuestion(mem, len) == Got(Some(QuestionOf(q)))
  {
    hide ParseName;
    Powers();
    var name := EncodeName(q.labels);
    HoldsParts(mem, 0, name, ToBytes(q.qtype, 2) + ToBytes(q.qclass, 2));
    ReadSpelledName(mem, len, 0, len, 0, q.labels);
    ReadEncodedNumber(mem, |name|, q.qtype, 2, ToBytes(q.qclass, 2));
  }

  lemma HoldsBehind(mem: seq<byte>, at: nat, bs: seq<byte>)
    requires HoldsAt(mem, at, bs)
    ensures HoldsAt(mem[at..], 0, bs)
  {
    assert mem[at..][0..|bs|] == mem[at..at + |bs|];
  }

  /** A pointer in a question counts from the start of the question, not of the message. */
  lemma CompressedQuestion(mem: seq<byte>, at: nat, len: nat, target: nat, qtype: nat, qclass: nat,
                           labels: seq<Text>)
    requires 0 < target < 0x4000 && LabelLengths(labels) && qtype < TWO_TO_THE_16 && qclass < TWO_TO_THE_16
    requires target + |EncodeName(labels)| <= len < TWO_TO_THE_32
    requires HoldsAt(mem, at, EncodePointer(target) + (ToBytes(qtype, 2) + ToBytes(qclass, 2)))
    requires HoldsAt(mem, at + target, EncodeName(labels))
    ensures ParseQuestion(mem[at..], len) == Got(Some(Question(Spell(labels), qtype, 6)))
  {
    hide ParseName;
    Powers();
    var bytes := mem[at..];
    assert bytes[target..target + |EncodeName(labels)|] == mem[at + target..at + target + |EncodeName(labels)|];
    HoldsBehind(mem, at, EncodePointer(target) + (ToBytes(qtype, 2) + ToBytes(qclass, 2)));
    HoldsParts(bytes, 0, EncodePointer(target), ToBytes(qtype, 2) + ToBytes(qclass, 2));
    EncodedPointer(bytes, 0, target);
    LonePointer(bytes, len, 0, len, 0);
    ReadSpelledName(bytes, len, target, len - target, 1, labels);
    ReadEncodedNumber(bytes, 2, qtype, 2, ToBytes(qclass, 2));
  }

  lemma QuestionStep(mem: seq<byte>, at: nat, len: nat, rest: nat, count: nat, done: seq<Question>, size: nat,
                     q: Question)
    requires rest > 0 && |done| < count && at <= |mem| && ParseQuestion(mem[at..], len) == Got(Some(q))
    requires q.len <= rest < TWO_TO_THE_32
    ensures ParseQuestions(mem, at, len, rest, count, done, size) ==
            ParseQuestions(mem, at + q.len, len, rest - q.len, count, done + [q], size + q.len)
  {
  }

  /** The question loop gets past every well-formed list of questions, however many are announced. */
  lemma {:induction false} PassQueries(mem: seq<byte>, at: nat, len: nat, rest: nat, count: nat, done: seq<Question>,
                                       size: nat, queries: seq<Query>)
    requires |EncodeQueries(queries)| <= rest <= len < TWO_TO_THE_32 && |done| + |queries| <= count
    requires forall q :: q in queries ==> QueryFits(q)
    requires HoldsAt(mem, at, EncodeQueries(queries))
    ensures var n := |EncodeQueries(queries)|;
            ParseQuestions(mem, at, len, rest, count, done, size) ==
            ParseQuestions(mem, at + n, len, rest - n, count, done + QuestionsOf(queries), size + n)
    decreases |queries|
  {
    hide ParseQuestion, ParseQuestions, EncodeQuestion, HoldsAt, QueryFits;
    if queries == [] {
      ConcatEmpty(done);
    } else {
      var q, behind := queries[0], EncodeQueries(queries[1..]);
      var first := EncodeQuestion(q.labels, q.qtype, q.qclass);
      HoldsParts(mem, at, first, behind);
      InMemory(mem, at, first);
      HoldsBehind(mem, at, first);
      ReadQuery(mem[at..], len, q);
      QuestionNotEmpty(q);
      QuestionStep(mem, at, len, rest, count, done, size, QuestionOf(q));
      PassQueries(mem, at + |first|, len, rest - |first|, count, done + [QuestionOf(q)], size + |first|, queries[1..]);
      ConcatAssociative(done, [QuestionOf(q)], QuestionsOf(queries[1..]));
    }
  }

  /** All announced questions are read, or as many as there are if nothing follows them. */
  lemma ReadQueries(mem: seq<byte>, at: nat, len: nat, count: nat, queries: seq<Query>)
    requires |EncodeQueries(queries)| <= len < TWO_TO_THE_32 && forall q :: q in queries ==> QueryFits(q)
    requires HoldsAt(mem, at, EncodeQueries(queries))
    requires count == |queries| || (count > |queries| && len == |EncodeQueries(queries)|)
    ensures ParseZone(mem, at, len, count) == Got(Zone(true, QuestionsOf(queries), |EncodeQueries(queries)|))
  {
    hide ParseQuestion, EncodeQueries, HoldsAt, QueryFits, QuestionsOf;
    var n := |EncodeQueries(queries)|;
    PassQueries(mem, at, len, len, count, [], 0, queries);
    ConcatEmpty(QuestionsOf(queries));
    QuestionsCount(queries);
  }

  lemma {:induction false} QuestionsCount(queries: seq<Query>)
    ensures |QuestionsOf(queries)| == |queries|
  {
    if queries != [] {
      QuestionsCount(queries[1..]);
    }
  }

  lemma InMemory(mem: seq<byte>, at: nat, bs: seq<byte>)
    requires HoldsAt(mem, at, bs)
    ensures at + |bs| <= |mem|
  {
  }

  lemma QuestionNotEmpty(q: Query)
    ensures |EncodeQuestion(q.labels, q.qtype, q.qclass)| > 0
  {
  }

  // ----- Whole messages -----

  lemma ReadEncodedHeader(mem: seq<byte>, len: nat, id: nat, flags: nat, questions: nat, answers: nat, authority: nat,
                          additional: nat)
    requires id < TWO_TO_THE_16 && flags < TWO_TO_THE_16 && questions < TWO_TO_THE_16 && answers < TWO_TO_THE_16
    requires HoldsAt(mem, 0, EncodeHead(id, flags, questions, answers, authority, additional)) && len >= HEADER_LEN
    ensures ParseHeader(mem, len) == Got(Some(HeadOf(id, flags, questions, answers)))
  {
    hide NumberAt, HoldsAt, ToBytes;
    Powers();
    var tail := ToBytes(authority, 2) + ToBytes(additional, 2);
    var behind := ToBytes(answers, 2) + tail;
    ReadEncodedNumber(mem, 0, id, 2, ToBytes(flags, 2) + (ToBytes(questions, 2) + behind));
    ReadEncodedNumber(mem, 2, flags, 2, ToBytes(questions, 2) + behind);
    ReadEncodedNumber(mem, 4, questions, 2, behind);
    ReadEncodedNumber(mem, 6, answers, 2, tail);
  }

  /** Section 4.1.1 of RFC 1035: the flags begin with the response bit and four of opcode, and end with the code. */
  function HeadOf(id: nat, flags: nat, questions: nat, answers: nat): Header {
    Header(id, flags / 0x8000 % 2 == 1, flags / 0x800 % 16, flags % 16, questions, answers)
  }

  function ResponseOf(m: Message, count: nat, answers: Answers): Response {
    Response(answers.valid, Some(HeadOf(m.id, m.flags, |m.queries|, count)),
             Some(Zone(true, QuestionsOf(m.queries), |EncodeQueries(m.queries)|)), answers.zones, answers.ips)
  }

  /** Parsing gets past everything that was written, whatever the header's answer count and whatever follows. */
  lemma ReadCounted(mem: seq<byte>, size: nat, m: Message, count: nat) returns (found: seq<Resource>)
    requires WellFormed(mem, size, m) && |m.records| <= count < TWO_TO_THE_16
    requires HoldsAt(mem, 0, EncodeCounted(m, count))
    ensures |found| == |m.records| && forall i :: 0 <= i < |found| ==> Delivers(mem, size, found[i], m.records[i])
    ensures ParseResponse(mem, size) ==
            match ParseAnswers(mem, size, |EncodeMessage(m)|, count, found, RecordIps(m.records))
            case Overrun => Overrun
            case Got(answers) => Got(ResponseOf(m, count, answers))
  {
    hide ParseResponse, ParseHeader, ParseZone, ParseAnswers, HoldsAt, EncodeCounted, EncodeQueries, EncodeRecords,
         RecordFits, PointersResolve, EncodeMessage, Delivers, QueryFits, QuestionsOf;
    var zone := EncodeQueries(m.queries);
    ReadFront(mem, m, count, size);
    ResponseFromParts(mem, size, HeadOf(m.id, m.flags, |m.queries|, count), Zone(true, QuestionsOf(m.queries), |zone|));
    found := ReadRecords(mem, size, HEADER_LEN + |zone|, count, [], [], m.records);
    ConcatEmpty(found);
    ConcatEmpty(RecordIps(m.records));
  }

  lemma ResponseFromParts(mem: seq<byte>, size: nat, header: Header, zone: Zone)
    requires size > HEADER_LEN && ParseHeader(mem, size) == Got(Some(header)) && header.rcode == 0 && zone.valid
    requires ParseZone(mem, HEADER_LEN, size - HEADER_LEN, header.questionCount) == Got(zone)
    ensures ParseResponse(mem, size) == AnswersOf(mem, size, header, zone)
  {
    hide ParseHeader, ParseZone, ParseAnswers;
  }

  lemma RequestFromParts(mem: seq<byte>, size: nat, header: Header, zone: Zone)
    requires size > HEADER_LEN && ParseHeader(mem, HEADER_LEN) == Got(Some(header))
    requires zone.valid && zone.questions != []
    requires ParseZone(mem, HEADER_LEN, size - HEADER_LEN, header.questionCount) == Got(zone)
    ensures ParseRequest(mem, size) == Got(Request(true, Some(header), Some(zone), QuestionHosts(zone.questions)))
  {
    hide ParseHeader, ParseZone, QuestionHosts;
  }

  lemma CountedSize(m: Message, count: nat)
    requires forall r :: r in m.records ==> RecordFits(r)
    ensures |EncodeCounted(m, count)| == |EncodeMessage(m)| ==
            HEADER_LEN + |EncodeQueries(m.queries)| + |EncodeRecords(m.records)|
  {
    hide EncodeHead, EncodeQueries, EncodeRecords, RecordFits;
    HeadSize(m.id, m.flags, |m.queries|, count, m.authority, m.additional);
    HeadSize(m.id, m.flags, |m.queries|, |m.records|, m.authority, m.additional);
  }

  /** The header and the questions of a message, and where its records start. */
  lemma ReadFront(mem: seq<byte>, m: Message, count: nat, size: nat)
    requires WellFormed(mem, size, m) && count < TWO_TO_THE_16 && HoldsAt(mem, 0, EncodeCounted(m, count))
    ensures var zone := EncodeQueries(m.queries);
            |EncodeMessage(m)| == HEADER_LEN + |zone| + |EncodeRecords(m.records)| &&
            ParseHeader(mem, size) == Got(Some(HeadOf(m.id, m.flags, |m.queries|, count))) &&
            ParseZone(mem, HEADER_LEN, size - HEADER_LEN, |m.queries|) ==
            Got(Zone(true, QuestionsOf(m.queries), |zone|)) &&
            HoldsAt(mem, HEADER_LEN + |zone|, EncodeRecords(m.records))
  {
    hide ParseHeader, ParseZone, HoldsAt, EncodeHead, EncodeQueries, EncodeRecords, RecordFits, PointersResolve,
         QueryFits;
    var header, zone, rest := EncodeHead(m.id, m.flags, |m.queries|, count, m.authority, m.additional),
                              EncodeQueries(m.queries), EncodeRecords(m.records);
    HeadSize(m.id, m.flags, |m.queries|, count, m.authority, m.additional);
    CountedSize(m, count);
    HoldsParts(mem, 0, header, zone + rest);
    HoldsParts(mem, HEADER_LEN, zone, rest);
    ReadEncodedHeader(mem, size, m.id, m.flags, |m.queries|, count, m.authority, m.additional);
    ReadQueries(mem, HEADER_LEN, size - HEADER_LEN, |m.queries|, m.queries);
  }

  lemma SomeQuestion(queries: seq<Query>)
    requires queries != []
    ensures |EncodeQueries(queries)| > 0
  {
  }

  /**
   * Every message of a header without error code, uncompressed questions, and records whose pointers lead to names
   * parses as valid, with exactly its addresses in order, whatever authority and additional counts it announces and
   * whatever stands behind the answers.
   */
  lemma ParseEncodedResponse(mem: seq<byte>, size: nat, m: Message) returns (found: seq<Resource>)
    requires WellFormed(mem, size, m) && HoldsAt(mem, 0, EncodeMessage(m))
    ensures ParseResponse(mem, size) == Got(ResponseOf(m, |m.records|, Answers(true, found, RecordIps(m.records))))
    ensures |found| == |m.records| && forall i :: 0 <= i < |found| ==> Delivers(mem, size, found[i], m.records[i])
  {
    hide ParseResponse;
    found := ReadCounted(mem, size, m, |m.records|);
  }

  /** An answer record that cannot be read makes the response invalid; those before it are kept. */
  lemma BadRecordRejects(mem: seq<byte>, size: nat, m: Message, count: nat) returns (found: seq<Resource>)
    requires WellFormed(mem, size, m) && |m.records| < count < TWO_TO_THE_16 && HoldsAt(mem, 0, EncodeCounted(m, count))
    requires ParseResource(mem, size, |EncodeMessage(m)|) == Got(None)
    ensures ParseResponse(mem, size) == Got(ResponseOf(m, count, Answers(false, found, RecordIps(m.records))))
    ensures |found| == |m.records| && forall i :: 0 <= i < |found| ==> Delivers(mem, size, found[i], m.records[i])
  {
    hide ParseResponse, ParseResource;
    found := ReadCounted(mem, size, m, count);
  }

  /** A message whose header announces more records than follow is rejected. */
  lemma MissingRecords(mem: seq<byte>, m: Message, count: nat)
    requires forall r :: r in m.records ==> RecordFits(r)
    requires WellFormed(mem, |EncodeMessage(m)|, m) && |m.records| < count < TWO_TO_THE_16
    requires HoldsAt(mem, 0, EncodeCounted(m, count))
    ensures var r := ParseResponse(mem, |EncodeMessage(m)|); r.Got? && !r.value.valid
  {
    hide ParseResponse;
    var size := |EncodeMessage(m)|;
    assert ParseName(mem, size, size, 0, 0, []) == Got(Name(0, []));
    assert ParseResource(mem, size, size) == Got(None);
    var found := BadRecordRejects(mem, size, m, count);
  }

  /** A response with an error code is valid and keeps its id and code, without questions, records and addresses. */
  lemma ErrorResponse(mem: seq<byte>, size: nat, id: nat, flags: nat, questions: nat, answers: nat, authority: nat,
                      additional: nat)
    requires id < TWO_TO_THE_16 && flags < TWO_TO_THE_16 && questions < TWO_TO_THE_16 && answers < TWO_TO_THE_16
    requires HoldsAt(mem, 0, EncodeHead(id, flags, questions, answers, authority, additional)) && size > 12
    requires 1 <= flags % 16 <= 15
    ensures ParseResponse(mem, size) ==
            Got(Response(true, Some(HeadOf(id, flags, questions, answers)), None, [], []))
  {
    hide ParseHeader, EncodeHead, HoldsAt;
    ReadEncodedHeader(mem, size, id, flags, questions, answers, authority, additional);
  }

  /** Twelve bytes and fewer are neither a request nor a response. */
  lemma ShortMessages(mem: seq<byte>, readable: nat)
    requires readable <= 12
    ensures ParseRequest(mem, readable) == Got(Request(false, None, None, []))
    ensures ParseResponse(mem, readable) == Got(Response(false, None, None, [], []))
  {
  }

  /**
   * A question that cannot be read, behind any others, makes request and response invalid; a request without
   * questions is invalid as well.
   */
  lemma BadQuestionRejects(mem: seq<byte>, size: nat, id: nat, flags: nat, queries: seq<Query>, count: nat,
                           answers: nat, authority: nat, additional: nat)
    requires id < TWO_TO_THE_16 && flags < TWO_TO_THE_16 && count < TWO_TO_THE_16 && answers < TWO_TO_THE_16
    requires forall q :: q in queries ==> QueryFits(q)
    requires HoldsAt(mem, 0, EncodeHead(id, flags, count, answers, authority, additional) + EncodeQueries(queries))
    requires 12 + |EncodeQueries(queries)| < size < TWO_TO_THE_32
    requires count == 0 ||
             (|queries| < count && ParseQuestion(mem[12 + |EncodeQueries(queries)|..], size - 12) == Got(None))
    ensures ParseRequest(mem, size) == Got(Request(false, Some(HeadOf(id, flags, count, answers)), None, []))
    ensures count > 0 && flags % 16 == 0 ==>
              ParseResponse(mem, size) == Got(Response(false, Some(HeadOf(id, flags, count, answers)), None, [], []))
  {
    hide ParseHeader, ParseQuestion, EncodeHead, EncodeQueries, HoldsAt, QueryFits, QuestionsOf;
    var head, n := EncodeHead(id, flags, count, answers, authority, additional), |EncodeQueries(queries)|;
    HeadSize(id, flags, count, answers, authority, additional);
    HoldsParts(mem, 0, head, EncodeQueries(queries));
    InMemory(mem, HEADER_LEN, EncodeQueries(queries));
    ReadEncodedHeader(mem, size, id, flags, count, answers, authority, additional);
    ReadEncodedHeader(mem, HEADER_LEN, id, flags, count, answers, authority, additional);
    if count > 0 {
      PassQueries(mem, HEADER_LEN, size - HEADER_LEN, size - HEADER_LEN, count, [], 0, queries);
      QuestionsCount(queries);
      ConcatEmpty(QuestionsOf(queries));
    }
  }

  // ----- Responses built from requests -----

  /** The records that the builder writes: every owner points at the first question. */
  function AddressRecords(ips: seq<nat>, ttl: nat): seq<Record> {
    if ips == [] then []
    else AddressRecords(ips[..|ips| - 1], ttl) + [Record(Pointer(HEADER_LEN), 1, ttl, Address(ips[|ips| - 1]))]
  }

  lemma {:induction false} EncodeRecordsAppend(a: seq<Record>, b: seq<Record>)
    requires forall r :: r in a + b ==> RecordFits(r)
    ensures forall r :: r in a || r in b ==> RecordFits(r)
    ensures EncodeRecords(a + b) == EncodeRecords(a) + EncodeRecords(b)
  {
    hide RecordFits, EncodeRecord;
    forall r | r in a || r in b
      ensures RecordFits(r)
    {
      assert r in a + b;
    }
    if a == [] {
      assert a + b == b;
    } else {
      assert (a + b)[1..] == a[1..] + b;
      EncodeRecordsAppend(a[1..], b);
    }
  }

  lemma {:induction false} RecordIpsAppend(a: seq<Record>, b: seq<Record>)
    ensures RecordIps(a + b) == RecordIps(a) + RecordIps(b)
  {
    if a == [] {
      assert a + b == b;
    } else {
      assert (a + b)[1..] == a[1..] + b;
      RecordIpsAppend(a[1..], b);
    }
  }

  lemma {:induction false} AddressRecordsFit(ips: seq<nat>, ttl: nat)
    requires ttl < TWO_TO_THE_32 && forall ip :: ip in ips ==> ip < TWO_TO_THE_32
    ensures |AddressRecords(ips, ttl)| == |ips|
    ensures forall r :: r in AddressRecords(ips, ttl) ==>
              RecordFits(r) && r.owner == Pointer(HEADER_LEN) && r.data.Address?
  {
    if ips != [] {
      PrefixMembers(ips, |ips| - 1);
      AddressRecordsFit(ips[..|ips| - 1], ttl);
      assert ips[|ips| - 1] in ips;
    }
  }

  lemma {:induction false} AddressRecordsIps(ips: seq<nat>, ttl: nat)
    ensures RecordIps(AddressRecords(ips, ttl)) == ips
  {
    if ips != [] {
      var front, ip := ips[..|ips| - 1], ips[|ips| - 1];
      var r := Record(Pointer(HEADER_LEN), 1, ttl, Address(ip));
      assert [r][1..] == [] && RecordIps([]) == [];
      assert RecordIps([r]) == [ip] + [];
      AddressRecordsIps(front, ttl);
      RecordIpsAppend(AddressRecords(front, ttl), [r]);
      assert ips == front + [ip];
    }
  }

  lemma {:induction false} AddressRecordsEncode(ips: seq<nat>, ttl: nat)
    requires ttl < TWO_TO_THE_32 && forall ip :: ip in ips ==> ip < TWO_TO_THE_32
    ensures forall r :: r in AddressRecords(ips, ttl) ==> RecordFits(r)
    ensures EncodeRecords(AddressRecords(ips, ttl)) == EncodeAddresses(ips, ttl)
  {
    AddressRecordsFit(ips, ttl);
    if ips != [] {
      hide AddressRecords, EncodeAddresses, EncodeRecords, EncodeAddress, RecordFits;
      var front, ip := ips[..|ips| - 1], ips[|ips| - 1];
      PrefixMembers(ips, |ips| - 1);
      AddressRecordsEncode(front, ttl);
      assert ip in ips;
      AddressRecordEncodes(ip, ttl);
      LastAddress(ips, ttl);
      EncodeRecordsAppend(AddressRecords(front, ttl), [Record(Pointer(HEADER_LEN), 1, ttl, Address(ip))]);
    }
  }

  /** How the last address extends records and bytes. */
  lemma LastAddress(ips: seq<nat>, ttl: nat)
    requires ips != []
    ensures var front, ip := ips[..|ips| - 1], ips[|ips| - 1];
            AddressRecords(ips, ttl) ==
            AddressRecords(front, ttl) + [Record(Pointer(HEADER_LEN), 1, ttl, Address(ip))] &&
            EncodeAddresses(ips, ttl) == EncodeAddresses(front, ttl) + EncodeAddress(ip, ttl)
  {
    hide EncodeAddress;
  }

  lemma AddressRecordEncodes(ip: nat, ttl: nat)
    requires ttl < TWO_TO_THE_32 && ip < TWO_TO_THE_32
    ensures var r := Record(Pointer(HEADER_LEN), 1, ttl, Address(ip));
            RecordFits(r) && EncodeRecords([r]) == EncodeAddress(ip, ttl)
  {
    hide ToBytes;
    var r := Record(Pointer(HEADER_LEN), 1, ttl, Address(ip));
    assert [r][1..] == [];
    ConcatSix([192, HEADER_LEN], ToBytes(TYPE_A, 2), ToBytes(1, 2), ToBytes(ttl, 4), ToBytes(4, 2), ToBytes(ip, 4));
    ConcatEmpty(EncodeRecord(r));
  }

  /** A request a response can be built for: its questions, spelled out, and the name the answers point to. */
  predicate RequestFits(id: nat, queries: seq<Query>, ttl: nat, ips: seq<nat>) {
    id < TWO_TO_THE_16 && 0 < |queries| < TWO_TO_THE_16 && ttl < TWO_TO_THE_32 &&
    (forall q :: q in queries ==> QueryFits(q)) && (forall ip :: ip in ips ==> ip < TWO_TO_THE_32) &&
    |EncodeQueries(queries)| <= BUFFER_SIZE - HEADER_LEN
  }

  /** The message that the builder encodes when it writes the addresses `ips`. */
  function BuiltMessage(id: nat, queries: seq<Query>, ips: seq<nat>, ttl: nat): Message {
    Message(id, ANSWER_FLAGS, queries, AddressRecords(ips, ttl), 0, 0)
  }

  lemma BuiltParts(mem: seq<byte>, id: nat, queries: seq<Query>, count: nat, ips: seq<nat>, ttl: nat)
    requires HoldsAt(mem, 0, Built(id, queries, count, ips, ttl))
    ensures HoldsAt(mem, HEADER_LEN, EncodeQueries(queries))
    ensures HoldsAt(mem, 0, EncodeHead(id, ANSWER_FLAGS, |queries|, count, 0, 0) +
                            (EncodeQueries(queries) + EncodeAddresses(ips, ttl)))
  {
    hide HoldsAt, EncodeQueries, EncodeHeader, EncodeHead, EncodeAddresses;
    var header, zone := EncodeHeader(id, ANSWER_FLAGS, |queries|, count), EncodeQueries(queries);
    HeaderSize(id, ANSWER_FLAGS, |queries|, count);
    BuiltHead(id, ANSWER_FLAGS, |queries|, count);
    ConcatAssociative(header, zone, EncodeAddresses(ips, ttl));
    HoldsParts(mem, 0, header, zone + EncodeAddresses(ips, ttl));
    HoldsParts(mem, HEADER_LEN, zone, EncodeAddresses(ips, ttl));
  }

  lemma BuiltIsWellFormed(mem: seq<byte>, id: nat, queries: seq<Query>, count: nat, ips: seq<nat>, ttl: nat)
    requires RequestFits(id, queries, ttl, ips) && |ips| <= count <= MAX_ANSWERS
    requires HoldsAt(mem, 0, Built(id, queries, count, ips, ttl))
    ensures var m, size := BuiltMessage(id, queries, ips, ttl), HEADER_LEN + |EncodeQueries(queries)| + 16 * |ips|;
            WellFormed(mem, size, m) && RecordIps(m.records) == ips && |m.records| == |ips| &&
            HoldsAt(mem, 0, EncodeCounted(m, count)) && |EncodeMessage(m)| == size
  {
    hide HoldsAt, EncodeQueries, EncodeHead, RecordFits, EncodeRecords, Resolvable, Built, RecordIps, EncodeMessage,
         EncodeAddresses, AddressRecords, QueryFits;
    var m, zone := BuiltMessage(id, queries, ips, ttl), EncodeQueries(queries);
    AddressRecordsFit(ips, ttl);
    AddressRecordsEncode(ips, ttl);
    AddressRecordsIps(ips, ttl);
    CountedSize(m, count);
    BuiltParts(mem, id, queries, count, ips, ttl);
    SomeQuestion(queries);
    FirstQueryFits(queries);
    FirstNameResolves(mem, HEADER_LEN + |zone|, HEADER_LEN + |zone| + 16 * |ips|, queries);
  }

  lemma FirstQueryFits(queries: seq<Query>)
    requires queries != [] && forall q :: q in queries ==> QueryFits(q)
    ensures LabelLengths(queries[0].labels)
  {
    assert queries[0] in queries;
  }

  /** The pointer of every answer leads to the name of the first question. */
  lemma FirstNameResolves(mem: seq<byte>, end: nat, size: nat, queries: seq<Query>)
    requires queries != [] && LabelLengths(queries[0].labels) && HoldsAt(mem, HEADER_LEN, EncodeQueries(queries))
    requires HEADER_LEN + |EncodeQueries(queries)| == end <= size
    ensures Resolvable(mem, size, HEADER_LEN)
    ensures forall text :: Names(mem, size, HEADER_LEN, text) ==> text == Spell(queries[0].labels)
  {
    var q := queries[0];
    var name := EncodeName(q.labels);
    HoldsParts(mem, HEADER_LEN, EncodeQuestion(q.labels, q.qtype, q.qclass), EncodeQueries(queries[1..]));
    HoldsParts(mem, HEADER_LEN, name, ToBytes(q.qtype, 2) + ToBytes(q.qclass, 2));
    assert Leads(mem, size, HEADER_LEN, Spot(HEADER_LEN, 0, q.labels));
  }

  /** Up to five addresses fit behind the questions. */
  predicate AllFit(queries: seq<Query>, ips: seq<nat>) {
    ips == [] || 12 + |EncodeQueries(queries)| + 16 * (if |ips| <= 5 then |ips| else 5) < 512
  }

  /** The bytes of a response that announces `count` addresses and holds `kept`. */
  function Built(id: nat, queries: seq<Query>, count: nat, kept: seq<nat>, ttl: nat): seq<byte> {
    EncodeHeader(id, ANSWER_FLAGS, |queries|, count) + EncodeQueries(queries) + EncodeAddresses(kept, ttl)
  }

  /** The addresses the builder writes and the message they make. */
  lemma BuiltShape(mem: seq<byte>, id: nat, queries: seq<Query>, ips: seq<nat>, ttl: nat) returns (kept: seq<nat>)
    requires RequestFits(id, queries, ttl, ips)
    requires HoldsAt(mem, 0, EncodeResponse(id, |queries|, EncodeQueries(queries), ips, ttl))
    ensures var front, most := 12 + |EncodeQueries(queries)|, if |ips| <= 5 then |ips| else 5;
            |kept| <= most && kept == ips[..|kept|] && (kept != [] ==> front + 16 * |kept| < 512) &&
            (|kept| < most ==> front + 16 * (|kept| + 1) >= 512) && (|kept| == most <==> AllFit(queries, ips)) &&
            RequestFits(id, queries, ttl, kept) &&
            EncodeResponse(id, |queries|, EncodeQueries(queries), ips, ttl) == Built(id, queries, most, kept, ttl) &&
            |Built(id, queries, most, kept, ttl)| == front + 16 * |kept|
  {
    hide EncodeQueries, EncodeHeader, HoldsAt, QueryFits, RecordsWritten, EncodeAddresses, EncodeAddress;
    var picked, front := FirstIps(ips), HEADER_LEN + |EncodeQueries(queries)|;
    FirstIpsAre(ips);
    RecordsWrittenBound(front, |picked|);
    kept := picked[..RecordsWritten(front, |picked|)];
    PrefixMembers(ips, |kept|);
    HeaderSize(id, ANSWER_FLAGS, |queries|, |picked|);
  }

  /** An answer record of the response: an address of the first question's name. */
  predicate Answering(zone: Resource, queries: seq<Query>, ip: nat, ttl: nat)
    requires queries != []
  {
    zone.rtype == 1 && zone.rclass == 1 && zone.ttl == ttl && zone.ips == [ip] && zone.cname.None? &&
    zone.owner == Spell(queries[0].labels)
  }

  /** The response carries exactly these addresses. */
  predicate Carries(r: Response, id: nat, queries: seq<Query>, ips: seq<nat>, ttl: nat)
    requires queries != []
  {
    r.valid && r.header == Some(Header(id, true, 0, 0, |queries|, |ips|)) && r.zone.Some? &&
    r.zone.value.questions == QuestionsOf(queries) && r.ips == ips && |r.answers| == |ips| &&
    forall i :: 0 <= i < |ips| ==> Answering(r.answers[i], queries, ips[i], ttl)
  }

  /**
   * Building a response and parsing it back: it is valid exactly when all addresses up to the fifth fit under 512
   * bytes, and then carries them; otherwise the header announces more records than were written and the parser rejects
   * the message. The message itself stays under 512 bytes whenever header and questions do.
   */
  lemma BuiltResponseRoundTrip(mem: seq<byte>, id: nat, queries: seq<Query>, ips: seq<nat>, ttl: nat)
    requires RequestFits(id, queries, ttl, ips)
    requires HoldsAt(mem, 0, EncodeResponse(id, |queries|, EncodeQueries(queries), ips, ttl))
    ensures var message := EncodeResponse(id, |queries|, EncodeQueries(queries), ips, ttl);
            var r := ParseResponse(mem, |message|);
            r.Got? && (r.value.valid <==> AllFit(queries, ips)) &&
            (AllFit(queries, ips) ==> Carries(r.value, id, queries, if |ips| <= 5 then ips else ips[..5], ttl)) &&
            (12 + |EncodeQueries(queries)| < 512 ==> |message| < 512)
  {
    hide ParseResponse, EncodeQueries, EncodeHeader, HoldsAt, WellFormed, EncodeResponse, AllFit, RequestFits, Built,
         EncodeMessage, EncodeCounted, Answering, QuestionsOf;
    var kept := BuiltShape(mem, id, queries, ips, ttl);
    var most := if |ips| <= 5 then |ips| else 5;
    FitsHasQuestion(id, queries, ttl, ips);
    if |kept| == most {
      BuiltWhole(mem, id, queries, kept, ttl);
      assert kept == if |ips| <= 5 then ips else ips[..5];
    } else {
      BuiltCut(mem, id, queries, most, kept, ttl);
    }
  }

  lemma FitsHasQuestion(id: nat, queries: seq<Query>, ttl: nat, ips: seq<nat>)
    requires RequestFits(id, queries, ttl, ips)
    ensures queries != []
  {
  }

  /** Questions for the root name, 5 bytes each. */
  function RootQueries(n: nat): seq<Query> {
    seq(n, _ => Query([], TYPE_A, 1))
  }

  lemma {:induction false} RootQueriesSize(n: nat)
    ensures |EncodeQueries(RootQueries(n))| == 5 * n
  {
    if n > 0 {
      assert RootQueries(n)[1..] == RootQueries(n - 1);
      RootQueriesSize(n - 1);
    }
  }

  /** A response that is cut off: 420 bytes of questions leave room for four of five addresses. */
  lemma CutOffResponse(id: nat, ttl: nat)
    requires id < TWO_TO_THE_16 && ttl < TWO_TO_THE_32
    ensures var message := EncodeResponse(id, 84, EncodeQueries(RootQueries(84)), [1, 2, 3, 4, 5], ttl);
            var r := ParseResponse(message, |message|);
            |message| == 496 && r.Got? && !r.value.valid
  {
    hide ParseResponse, EncodeQueries, EncodeHeader, EncodeResponse;
    var queries, ips := RootQueries(84), [1, 2, 3, 4, 5];
    RootQueriesSize(84);
    var message := EncodeResponse(id, 84, EncodeQueries(queries), ips, ttl);
    assert message[0..|message|] == message;
    var kept := BuiltShape(message, id, queries, ips, ttl);
    BuiltResponseRoundTrip(message, id, queries, ips, ttl);
  }

  lemma BuiltWhole(mem: seq<byte>, id: nat, queries: seq<Query>, kept: seq<nat>, ttl: nat)
    requires RequestFits(id, queries, ttl, kept) && |kept| <= MAX_ANSWERS
    requires HoldsAt(mem, 0, Built(id, queries, |kept|, kept, ttl))
    ensures var r := ParseResponse(mem, HEADER_LEN + |EncodeQueries(queries)| + 16 * |kept|);
            r.Got? && Carries(r.value, id, queries, kept, ttl)
  {
    hide ParseResponse, EncodeQueries, EncodeHeader, HoldsAt, WellFormed, EncodeMessage, EncodeCounted, Delivers, Built,
         QueryFits, QuestionsOf, Answering;
    BuiltIsWellFormed(mem, id, queries, |kept|, kept, ttl);
    var m, size := BuiltMessage(id, queries, kept, ttl), HEADER_LEN + |EncodeQueries(queries)| + 16 * |kept|;
    var found := ReadCompleteMessage(mem, size, m, |kept|);
    BuiltFlags();
    BuiltFirstName(mem, size, id, queries, kept, ttl);
    AddressRecordsFit(kept, ttl);
    forall i | 0 <= i < |kept|
      ensures Answering(found[i], queries, kept[i], ttl)
    {
      AddressRecordAt(kept, ttl, i);
      BuiltRecord(mem, size, queries, found[i], kept[i], ttl);
    }
  }

  lemma BuiltFlags()
    ensures ANSWER_FLAGS / 0x8000 % 2 == 1 && ANSWER_FLAGS / 0x800 % 16 == 0 && ANSWER_FLAGS % 16 == 0
    ensures QUERY_FLAGS / 0x8000 % 2 == 0 && QUERY_FLAGS / 0x800 % 16 == 0 && QUERY_FLAGS % 16 == 0
  {
  }

  lemma BuiltFirstName(mem: seq<byte>, size: nat, id: nat, queries: seq<Query>, kept: seq<nat>, ttl: nat)
    requires RequestFits(id, queries, ttl, kept) && HoldsAt(mem, 0, Built(id, queries, |kept|, kept, ttl))
    requires size == HEADER_LEN + |EncodeQueries(queries)| + 16 * |kept|
    ensures forall text :: Names(mem, size, HEADER_LEN, text) ==> text == Spell(queries[0].labels)
  {
    hide EncodeQueries, HoldsAt, Names, Built, QueryFits;
    BuiltParts(mem, id, queries, |kept|, kept, ttl);
    FirstQueryFits(queries);
    FirstNameResolves(mem, HEADER_LEN + |EncodeQueries(queries)|, size, queries);
  }

  lemma {:induction false} AddressRecordAt(ips: seq<nat>, ttl: nat, i: nat)
    requires i < |ips| == |AddressRecords(ips, ttl)|
    ensures AddressRecords(ips, ttl)[i] == Record(Pointer(HEADER_LEN), 1, ttl, Address(ips[i]))
  {
    if i < |ips| - 1 {
      AddressRecordsLength(ips[..|ips| - 1], ttl);
      AddressRecordAt(ips[..|ips| - 1], ttl, i);
    } else {
      AddressRecordsLength(ips[..|ips| - 1], ttl);
    }
  }

  lemma {:induction false} AddressRecordsLength(ips: seq<nat>, ttl: nat)
    ensures |AddressRecords(ips, ttl)| == |ips|
  {
    if ips != [] {
      AddressRecordsLength(ips[..|ips| - 1], ttl);
    }
  }

  lemma BuiltRecord(mem: seq<byte>, size: nat, queries: seq<Query>, zone: Resource, ip: nat, ttl: nat)
    requires queries != [] && RecordFits(Record(Pointer(HEADER_LEN), 1, ttl, Address(ip)))
    requires Delivers(mem, size, zone, Record(Pointer(HEADER_LEN), 1, ttl, Address(ip)))
    requires forall text :: Names(mem, size, HEADER_LEN, text) ==> text == Spell(queries[0].labels)
    ensures Answering(zone, queries, ip, ttl)
  {
    hide Names, Spell, EncodeRecord;
  }

  lemma BuiltCut(mem: seq<byte>, id: nat, queries: seq<Query>, count: nat, kept: seq<nat>, ttl: nat)
    requires RequestFits(id, queries, ttl, kept) && |kept| < count <= MAX_ANSWERS
    requires HoldsAt(mem, 0, Built(id, queries, count, kept, ttl))
    ensures var r := ParseResponse(mem, HEADER_LEN + |EncodeQueries(queries)| + 16 * |kept|);
            r.Got? && !r.value.valid
  {
    hide ParseResponse, EncodeQueries, EncodeHeader, HoldsAt, RequestFits, EncodeMessage, EncodeCounted, Built,
         RecordFits, PointersResolve, QueryFits;
    BuiltIsWellFormed(mem, id, queries, count, kept, ttl);
    MissingRecords(mem, BuiltMessage(id, queries, kept, ttl), count);
  }

  lemma ReadCompleteMessage(mem: seq<byte>, size: nat, m: Message, count: nat) returns (found: seq<Resource>)
    requires WellFormed(mem, size, m) && count == |m.records| && HoldsAt(mem, 0, EncodeCounted(m, count))
    ensures ParseResponse(mem, size) == Got(ResponseOf(m, count, Answers(true, found, RecordIps(m.records))))
    ensures |found| == |m.records| && forall i :: 0 <= i < |found| ==> Delivers(mem, size, found[i], m.records[i])
  {
    found := ParseEncodedResponse(mem, size, m);
  }

  // ----- Requests -----

  /** The questions that a request for `hosts` asks. */
  function HostQueries(hosts: seq<Text>): seq<Query> {
    if hosts == [] then []
    else HostQueries(hosts[..|hosts| - 1]) + [Query(HostLabels(hosts[|hosts| - 1]), TYPE_A, 1)]
  }

  lemma {:induction false} EncodeQueriesAppend(a: seq<Query>, b: seq<Query>)
    ensures EncodeQueries(a + b) == EncodeQueries(a) + EncodeQueries(b)
    ensures QuestionsOf(a + b) == QuestionsOf(a) + QuestionsOf(b)
  {
    hide EncodeQuestion;
    if a == [] {
      assert a + b == b;
    } else {
      assert (a + b)[1..] == a[1..] + b;
      EncodeQueriesAppend(a[1..], b);
    }
  }

  /** The questions a parser finds in a request for `hosts`. */
  function HostQuestions(hosts: seq<Text>): seq<Question> {
    seq(|hosts|, i requires 0 <= i < |hosts| => Question(hosts[i], TYPE_A, |hosts[i]| + 6))
  }

  lemma {:induction false} HostQueriesEncode(hosts: seq<Text>)
    requires forall h :: h in hosts ==> ValidHost(h)
    ensures |HostQueries(hosts)| == |hosts| && EncodeQueries(HostQueries(hosts)) == EncodeHosts(hosts)
    ensures QuestionsOf(HostQueries(hosts)) == HostQuestions(hosts)
  {
    if hosts != [] {
      hide EncodeQueries, QuestionsOf, EncodeQuestion, HostLabels, ValidHost, EncodeHosts, HostQueries, HostQuestions;
      var front, host := hosts[..|hosts| - 1], hosts[|hosts| - 1];
      PrefixMembers(hosts, |hosts| - 1);
      HostQueriesEncode(front);
      assert host in hosts;
      QueryOfHost(host);
      LastHost(hosts);
      EncodeQueriesAppend(HostQueries(front), [Query(HostLabels(host), TYPE_A, 1)]);
    }
  }

  /** How the last host extends queries, bytes and questions. */
  lemma LastHost(hosts: seq<Text>)
    requires hosts != []
    ensures var front, host := hosts[..|hosts| - 1], hosts[|hosts| - 1];
            HostQueries(hosts) == HostQueries(front) + [Query(HostLabels(host), TYPE_A, 1)] &&
            EncodeHosts(hosts) == EncodeHosts(front) + EncodeQuestion(HostLabels(host), TYPE_A, 1) &&
            HostQuestions(hosts) == HostQuestions(front) + [Question(host, TYPE_A, |host| + 6)]
  {
    hide EncodeQuestion, HostLabels;
  }

  lemma {:induction false} HostQueriesFit(hosts: seq<Text>)
    requires forall h :: h in hosts ==> ValidHost(h)
    ensures forall q :: q in HostQueries(hosts) ==> QueryFits(q)
  {
    if hosts != [] {
      hide HostLabels;
      PrefixMembers(hosts, |hosts| - 1);
      HostQueriesFit(hosts[..|hosts| - 1]);
      assert hosts[|hosts| - 1] in hosts;
    }
  }

  lemma QueryOfHost(host: Text)
    requires ValidHost(host)
    ensures var q := Query(HostLabels(host), TYPE_A, 1);
            EncodeQueries([q]) == EncodeQuestion(q.labels, TYPE_A, 1) &&
            QuestionsOf([q]) == [Question(host, TYPE_A, |host| + 6)]
  {
    hide EncodeQuestion;
    var q := Query(HostLabels(host), TYPE_A, 1);
    assert [q][1..] == [];
    ConcatEmpty(EncodeQuestion(q.labels, TYPE_A, 1));
    AppendHostLabels(host, 0, 0, []);
    QuestionLength(host);
  }

  lemma {:induction false} CollectAllHosts(questions: seq<Question>, hosts: seq<Text>)
    requires |questions| == |hosts|
    requires forall i :: 0 <= i < |hosts| ==> questions[i].name == hosts[i] != []
    ensures QuestionHosts(questions) == hosts
  {
    if hosts != [] {
      CollectAllHosts(questions[..|hosts| - 1], hosts[..|hosts| - 1]);
    }
  }

  /**
   * A request with any uncompressed questions parses to exactly those, and its zone is their bytes, whatever answer,
   * authority and additional counts it announces and whatever stands behind the questions.
   */
  lemma ParseEncodedRequest(mem: seq<byte>, size: nat, id: nat, flags: nat, queries: seq<Query>, answers: nat,
                            authority: nat, additional: nat)
    requires id < TWO_TO_THE_16 && flags < TWO_TO_THE_16 && answers < TWO_TO_THE_16 && 0 < |queries| < TWO_TO_THE_16
    requires HEADER_LEN + |EncodeQueries(queries)| <= size < TWO_TO_THE_32 && forall q :: q in queries ==> QueryFits(q)
    requires HoldsAt(mem, 0, EncodeHead(id, flags, |queries|, answers, authority, additional) + EncodeQueries(queries))
    ensures ParseRequest(mem, size) ==
            Got(Request(true, Some(HeadOf(id, flags, |queries|, answers)),
                        Some(Zone(true, QuestionsOf(queries), |EncodeQueries(queries)|)),
                        QuestionHosts(QuestionsOf(queries))))
    ensures HoldsAt(mem, HEADER_LEN, EncodeQueries(queries))
  {
    hide ParseRequest, ParseHeader, ParseZone, EncodeHead, EncodeQueries, QuestionHosts, QueryFits, HoldsAt,
         QuestionsOf;
    var zone := EncodeQueries(queries);
    HeadSize(id, flags, |queries|, answers, authority, additional);
    HoldsParts(mem, 0, EncodeHead(id, flags, |queries|, answers, authority, additional), zone);
    ReadEncodedHeader(mem, HEADER_LEN, id, flags, |queries|, answers, authority, additional);
    SomeQuestion(queries);
    ReadQueries(mem, HEADER_LEN, size - HEADER_LEN, |queries|, queries);
    QuestionsCount(queries);
    RequestFromParts(mem, size, HeadOf(id, flags, |queries|, answers), Zone(true, QuestionsOf(queries), |zone|));
  }

  /** When nothing follows the questions, announcing more of them changes nothing but the announced count. */
  lemma MissingQuestions(mem: seq<byte>, id: nat, flags: nat, queries: seq<Query>, count: nat, answers: nat,
                         authority: nat, additional: nat)
    requires id < TWO_TO_THE_16 && flags < TWO_TO_THE_16 && answers < TWO_TO_THE_16
    requires 0 < |queries| < count < TWO_TO_THE_16
    requires HEADER_LEN + |EncodeQueries(queries)| < TWO_TO_THE_32 && forall q :: q in queries ==> QueryFits(q)
    requires HoldsAt(mem, 0, EncodeHead(id, flags, count, answers, authority, additional) + EncodeQueries(queries))
    ensures ParseRequest(mem, HEADER_LEN + |EncodeQueries(queries)|) ==
            Got(Request(true, Some(HeadOf(id, flags, count, answers)),
                        Some(Zone(true, QuestionsOf(queries), |EncodeQueries(queries)|)),
                        QuestionHosts(QuestionsOf(queries))))
  {
    hide ParseRequest, ParseHeader, ParseZone, EncodeHead, EncodeQueries, QuestionHosts, QueryFits, HoldsAt,
         QuestionsOf;
    var zone := EncodeQueries(queries);
    HeadSize(id, flags, count, answers, authority, additional);
    HoldsParts(mem, 0, EncodeHead(id, flags, count, answers, authority, additional), zone);
    ReadEncodedHeader(mem, HEADER_LEN, id, flags, count, answers, authority, additional);
    SomeQuestion(queries);
    ReadQueries(mem, HEADER_LEN, |zone|, count, queries);
    QuestionsCount(queries);
    RequestFromParts(mem, HEADER_LEN + |zone|, HeadOf(id, flags, count, answers),
                     Zone(true, QuestionsOf(queries), |zone|));
  }

  /**
   * From request to response and back: whatever well-formed request was parsed, the response built from it echoes
   * its id and its questions and carries the addresses up to the fifth, unless they do not fit and it is rejected.
   */
  lemma AnswerEchoesRequest(mem: seq<byte>, size: nat, answer: seq<byte>, id: nat, flags: nat, queries: seq<Query>,
                            answers: nat, authority: nat, additional: nat, ips: seq<nat>, ttl: nat)
    requires RequestFits(id, queries, ttl, ips) && flags < TWO_TO_THE_16 && answers < TWO_TO_THE_16
    requires HEADER_LEN + |EncodeQueries(queries)| <= size < TWO_TO_THE_32
    requires HoldsAt(mem, 0, EncodeHead(id, flags, |queries|, answers, authority, additional) + EncodeQueries(queries))
    ensures var q := ParseRequest(mem, size);
            q.Got? && q.value.valid && q.value.header.Some? && q.value.zone.Some? &&
            var header, zone := q.value.header.value, q.value.zone.value;
            HEADER_LEN + zone.len <= |mem| &&
            var bytes := mem[HEADER_LEN..HEADER_LEN + zone.len];
            var message := EncodeResponse(header.id, |zone.questions|, bytes, ips, ttl);
            HoldsAt(answer, 0, message) ==>
              var r := ParseResponse(answer, |message|);
              r.Got? && (r.value.valid <==> AllFit(queries, ips)) &&
              (r.value.valid ==> Carries(r.value, id, queries, if |ips| <= 5 then ips else ips[..5], ttl))
  {
    hide ParseRequest, ParseResponse, EncodeQueries, EncodeHead, EncodeResponse, QuestionHosts, QueryFits, Carries;
    QuestionsCount(queries);
    ParseEncodedRequest(mem, size, id, flags, queries, answers, authority, additional);
    var message := EncodeResponse(id, |queries|, EncodeQueries(queries), ips, ttl);
    if HoldsAt(answer, 0, message) {
      BuiltResponseRoundTrip(answer, id, queries, ips, ttl);
    }
  }

  /** A query with an additional record, as resolvers send it, is accepted with its host. */
  lemma EdnsQuery()
    ensures var mem: seq<byte> := [0, 1, 1, 0, 0, 1, 0, 0, 0, 0, 0, 1, 1, 97, 0, 0, 1, 0, 1,
                                   0, 0, 41, 16, 0, 0, 0, 0, 0, 0, 0];
            var r := ParseRequest(mem, |mem|);
            r.Got? && r.value.valid && r.value.header == Some(Header(1, false, 0, 0, 1, 0)) && r.value.hosts == [[97]]
  {
    hide ParseRequest, EncodeHead, EncodeQueries, QuestionsOf, QuestionHosts;
    var mem: seq<byte> := [0, 1, 1, 0, 0, 1, 0, 0, 0, 0, 0, 1, 1, 97, 0, 0, 1, 0, 1, 0, 0, 41, 16, 0, 0, 0, 0, 0, 0, 0];
    EdnsBytes();
    assert mem[0..19] == [0, 1, 1, 0, 0, 1, 0, 0, 0, 0, 0, 1] + [1, 97, 0, 0, 1, 0, 1];
    ParseEncodedRequest(mem, 30, 1, 256, [Query([[97]], 1, 1)], 0, 0, 1);
    EdnsHost();
  }

  lemma EdnsBytes()
    ensures EncodeHead(1, 256, 1, 0, 0, 1) == [0, 1, 1, 0, 0, 1, 0, 0, 0, 0, 0, 1]
    ensures EncodeQueries([Query([[97]], 1, 1)]) == [1, 97, 0, 0, 1, 0, 1] && QueryFits(Query([[97]], 1, 1))
  {
    hide EncodeName, ToBytes;
    var q := Query([[97]], 1, 1);
    OneLabel();
    SmallNumbers();
    assert [q][1..] == [];
    assert EncodeQuestion(q.labels, 1, 1) == [1, 97, 0] + ([0, 1] + [0, 1]);
    ConcatEmpty(EncodeQuestion(q.labels, 1, 1));
  }

  lemma EdnsHost()
    ensures QuestionHosts(QuestionsOf([Query([[97]], 1, 1)])) == [[97]]
  {
    hide AppendLabels, EncodeQuestion;
    OneLabel();
    var q := Query([[97]], 1, 1);
    assert [q][1..] == [] && [QuestionOf(q)][..0] == [];
    ConcatEmpty([QuestionOf(q)]);
    assert QuestionsOf([q]) == [QuestionOf(q)];
  }

  /** A request for the host "a" with id 1, byte by byte. */
  lemma RequestBytes()
    ensures EncodeRequest(1, [[97]]) == [0, 1, 1, 0, 0, 1, 0, 0, 0, 0, 0, 0, 1, 97, 0, 0, 1, 0, 1]
  {
    hide ToBytes, EncodeName, HostLabels;
    var hosts: seq<Text> := [[97]];
    SmallNumbers();
    OneLabel();
    HostOfOneLabel();
    assert hosts[..0] == [] && EncodeHosts(hosts[..0]) == [];
    assert EncodeHosts(hosts) == EncodeHosts(hosts[..0]) + EncodeQuestion([[97]], 1, 1);
    assert EncodeQuestion([[97]], 1, 1) == [1, 97, 0] + ([0, 1] + [0, 1]);
    assert EncodeHeader(1, 256, 1, 0) == [0, 1] + [1, 0] + [0, 1] + [0, 0] + [0, 0] + [0, 0];
  }

  lemma HostOfOneLabel()
    ensures HostLabels([97]) == [[97]]
  {
    var host: Text := [97];
    assert host[0..1] == [97];
    assert LabelsFrom(host, 0, 1) == [host[0..1]];
  }

  lemma HeaderBytesOfResponse()
    ensures EncodeHeader(1, ANSWER_FLAGS, 1, 1) == [0, 1, 128, 128, 0, 1, 0, 1, 0, 0, 0, 0]
  {
    hide ToBytes;
    SmallNumbers();
    NetworkBytes(128, 128, 0, 0);
    assert EncodeHeader(1, 0x8080, 1, 1) == [0, 1] + [128, 128] + [0, 1] + [0, 1] + [0, 0] + [0, 0];
  }

  lemma AddressBytes()
    ensures EncodeAddress(0x0102_0304, 600) == [192, 12, 0, 1, 0, 1, 0, 0, 2, 88, 0, 4, 1, 2, 3, 4]
  {
    hide ToBytes;
    SmallNumbers();
    NetworkBytes(0, 4, 0, 0);
    NetworkBytes(0, 0, 2, 88);
    NetworkBytes(1, 2, 3, 4);
    assert EncodeAddress(0x0102_0304, 600) == [192, 12] + [0, 1] + [0, 1] + [0, 0, 2, 88] + [0, 4] + [1, 2, 3, 4];
  }

  /** The response to it with the address 1.2.3.4 for 600 seconds, byte by byte. */
  lemma ResponseBytes()
    ensures EncodeResponse(1, 1, [1, 97, 0, 0, 1, 0, 1], [0x0102_0304], 600) ==
            [0, 1, 128, 128, 0, 1, 0, 1, 0, 0, 0, 0, 1, 97, 0, 0, 1, 0, 1,
             192, 12, 0, 1, 0, 1, 0, 0, 2, 88, 0, 4, 1, 2, 3, 4]
  {
    hide EncodeHeader, EncodeAddress, EncodeAddresses, RecordsWritten;
    var ips: seq<nat> := [0x0102_0304];
    RecordsWrittenBound(19, 1);
    assert ips[..1] == ips;
    OneAddress(ips[0], 600);
    assert EncodeResponse(1, 1, [1, 97, 0, 0, 1, 0, 1], ips, 600) ==
           EncodeHeader(1, ANSWER_FLAGS, 1, 1) + [1, 97, 0, 0, 1, 0, 1] + EncodeAddress(ips[0], 600);
    HeaderBytesOfResponse();
    AddressBytes();
  }

  lemma OneAddress(ip: nat, ttl: nat)
    ensures EncodeAddresses([ip], ttl) == EncodeAddress(ip, ttl)
  {
    var ips := [ip];
    assert ips[..0] == [];
    assert EncodeAddresses(ips, ttl) == [] + EncodeAddress(ip, ttl);
  }

  lemma OneLabel()
    ensures EncodeName([[97]]) == [1, 97, 0] && Spell([[97]]) == [97] && LabelLengths([[97]])
  {
    var labels: seq<Text> := [[97]];
    assert labels[1..] == [];
    assert EncodeLabels(labels) == [1, 97] + EncodeLabels(labels[1..]);
    CStringWhole([97]);
    assert AppendLabels([], labels) == AppendLabels(AppendLabel([], labels[0]), labels[1..]);
  }

  lemma SmallNumbers()
    ensures ToBytes(0, 2) == [0, 0] && ToBytes(1, 2) == [0, 1] && ToBytes(256, 2) == [1, 0]
  {
    assert Digit(0, 1) == 0 && Digit(1, 1) == 0 && Digit(256, 1) == 1;
  }

  /**
   * A question for the root name is accepted without a host, and `generate` reads outside the string for the empty
   * host that stands for it.
   */
  lemma RootQuestionLeavesString(id: nat)
    requires id < TWO_TO_THE_16
    ensures var mem := EncodeHeader(id, QUERY_FLAGS, 1, 0) + EncodeQueries(RootQueries(1));
            var r := ParseRequest(mem, |mem|);
            r.Got? && r.value.valid && r.value.hosts == [] && Encoding([]) == Overrun
  {
    hide ParseRequest, EncodeHeader, EncodeHead, EncodeQueries, Encoding;
    RootQueriesSize(1);
    HeaderSize(id, QUERY_FLAGS, 1, 0);
    BuiltHead(id, QUERY_FLAGS, 1, 0);
    var queries := RootQueries(1);
    var mem := EncodeHeader(id, QUERY_FLAGS, 1, 0) + EncodeQueries(queries);
    assert mem[0..|mem|] == mem;
    ParseEncodedRequest(mem, |mem|, id, QUERY_FLAGS, queries, 0, 0, 0);
    assert queries[1..] == [];
    assert QuestionsOf(queries) == [QuestionOf(queries[0])] + QuestionsOf(queries[1..]);
    assert [QuestionOf(queries[0])] + [] == [QuestionOf(queries[0])];
    assert [QuestionOf(queries[0])][..0] == [];
    EmptyHostLeavesString();
  }

  /** A request of 15 bytes, whose only question lacks its class, is accepted with a zone two bytes too long. */
  lemma ClassCutOff(id: nat)
    requires id < TWO_TO_THE_16
    ensures var mem := EncodeHeader(id, QUERY_FLAGS, 1, 0) + [0, 0, 1];
            var r := ParseRequest(mem, 15);
            |mem| == 15 && r.Got? && r.value.valid && r.value.zone == Some(Zone(true, [Question([], TYPE_A, 5)], 5))
  {
    hide ParseRequest, ParseHeader, EncodeHeader, ParseQuestions, ParseName, HoldsAt;
    HeaderSize(id, QUERY_FLAGS, 1, 0);
    var head, tail: seq<byte> := EncodeHeader(id, QUERY_FLAGS, 1, 0), [0, 0, 1];
    var mem := head + tail;
    Whole(head, tail);
    BuiltHead(id, QUERY_FLAGS, 1, 0);
    ReadEncodedHeader(mem, HEADER_LEN, id, QUERY_FLAGS, 1, 0, 0, 0);
    RootWithoutClass(mem[HEADER_LEN..]);
    var q := Question([], TYPE_A, 5);
    OneQuestion(mem, HEADER_LEN, 3, q);
    RequestFromParts(mem, 15, ParseHeader(mem, HEADER_LEN).value.value, Zone(true, [q], 5));
  }

  lemma Whole(head: seq<byte>, tail: seq<byte>)
    ensures HoldsAt(head + tail, 0, head) && (head + tail)[|head|..] == tail
  {
    assert (head + tail)[0..|head|] == head;
  }

  lemma RootWithoutClass(mem: seq<byte>)
    requires mem == [0, 0, 1]
    ensures ParseQuestion(mem, 3) == Got(Some(Question([], TYPE_A, 5)))
  {
    hide ParseFrames;
    ZeroFrame(mem, 3, 0, 3, 0, 0, []);
    assert mem[1..3] == [0, 1];
    assert mem[1..3][..1] == [0] && [0][..0] == [];
    assert BigEndian([0]) == 0;
  }

  lemma OneQuestion(mem: seq<byte>, at: nat, len: nat, q: Question)
    requires at <= |mem| && len > 0 && ParseQuestion(mem[at..], len) == Got(Some(q))
    ensures ParseQuestions(mem, at, len, len, 1, [], 0) == Got(Zone(true, [q], q.len))
  {
    hide ParseQuestion;
    assert [] + [q] == [q];
    var rest := WrappedMinus(TWO_TO_THE_32, len, q.len);
    assert ParseQuestions(mem, at, len, len, 1, [], 0) == ParseQuestions(mem, at + q.len, len, rest, 1, [q], q.len);
  }

  /**
   * A request for any non-empty list of valid host names parses back to the same id, hosts and type A, whatever
   * follows it in the buffer, in particular the second copy of the questions that `generate` leaves there.
   */
  lemma RequestRoundTrip(mem: seq<byte>, id: nat, hosts: seq<Text>)
    requires id < TWO_TO_THE_16 && 0 < |hosts| < TWO_TO_THE_16 && |EncodeRequest(id, hosts)| < TWO_TO_THE_32
    requires forall h :: h in hosts ==> ValidHost(h)
    requires HoldsAt(mem, 0, EncodeRequest(id, hosts))
    ensures var r := ParseRequest(mem, |EncodeRequest(id, hosts)|);
            r.Got? && r.value.valid && r.value.header == Some(Header(id, false, 0, 0, |hosts|, 0)) &&
            r.value.hosts == hosts && r.value.zone.Some? && r.value.zone.value.questions == HostQuestions(hosts)
  {
    hide ParseRequest, HoldsAt, EncodeHeader, EncodeHead, EncodeHosts, EncodeQueries;
    HeaderSize(id, QUERY_FLAGS, |hosts|, 0);
    BuiltHead(id, QUERY_FLAGS, |hosts|, 0);
    BuiltFlags();
    HostQueriesEncode(hosts);
    HostQueriesFit(hosts);
    ParseEncodedRequest(mem, |EncodeRequest(id, hosts)|, id, QUERY_FLAGS, HostQueries(hosts), 0, 0, 0);
    forall i | 0 <= i < |hosts|
      ensures hosts[i] != []
    {
      assert hosts[i] in hosts;
    }
    CollectAllHosts(HostQuestions(hosts), hosts);
  }

  /** The TCP form of a message is accepted exactly at its own length, and reads as the UDP form behind two bytes. */
  lemma TcpFraming(mem: seq<byte>, message: seq<byte>, readable: nat)
    requires 0 < |message| < TWO_TO_THE_16 && HoldsAt(mem, 0, ToBytes(|message|, 2) + message)
    ensures HoldsAt(mem[2..], 0, message)
    ensures ParseTcpResponse(mem, readable) ==
            if readable != |message| + 2 then Got(None)
            else match ParseResponse(mem[2..], |message|)
              case Overrun => Overrun
              case Got(response) => Got(if response.valid then Some(response) else None)
  {
    hide ParseResponse;
    Powers();
    ReadEncodedNumber(mem, 0, |message|, 2, message);
    HoldsBehind(mem, 2, message);
  }
}
