/**
 * Domain names on the wire (section 4.1.4 of RFC 1035): `generate` writes a name as length-prefixed labels,
 * `parseRe` reads labels and follows compression pointers up to a fixed depth.
 */
module DomainNames {
  import opened Bytes

  type Text = seq<byte>

  const DOT: byte := 46
  const MAX_DEPTH := 20

  /** `strlen`, counting from index `i`. */
  function StrLen(s: Text, i: nat): (n: nat)
    requires i <= |s|
    ensures i <= n <= |s|
    decreases |s| - i
  {
    if i == |s| || s[i] == 0 then i else StrLen(s, i + 1)
  }

  /** The bytes of a C string: everything before the first NUL. */
  function CString(s: Text): Text {
    s[..StrLen(s, 0)]
  }

  lemma {:induction false} StrLenAll(s: Text, i: nat)
    requires i <= |s| && forall k :: i <= k < |s| ==> s[k] != 0
    ensures StrLen(s, i) == |s|
    decreases |s| - i
  {
    if i < |s| {
      StrLenAll(s, i + 1);
    }
  }

  lemma CStringWhole(s: Text)
    requires 0 !in s
    ensures CString(s) == s
  {
    StrLenAll(s, 0);
  }

  lemma {:induction false} StrLenClean(s: Text, i: nat)
    requires i <= |s|
    ensures forall k :: i <= k < StrLen(s, i) ==> s[k] != 0
    decreases |s| - i
  {
    if i < |s| && s[i] != 0 {
      StrLenClean(s, i + 1);
    }
  }

  lemma CStringIsClean(s: Text)
    ensures 0 !in CString(s)
  {
    StrLenClean(s, 0);
  }

  /** A C string is what stands before the first NUL, if there is one. */
  lemma CStringIs(a: Text, b: Text)
    requires 0 !in a
    ensures CString(a + [0] + b) == a
  {
    StrLenTo(a + [0] + b, 0, |a|);
    assert (a + [0] + b)[..|a|] == a;
  }

  lemma {:induction false} StrLenTo(s: Text, i: nat, n: nat)
    requires i <= n < |s| && s[n] == 0 && forall k :: i <= k < n ==> s[k] != 0
    ensures StrLen(s, i) == n
    decreases n - i
  {
    if i < n {
      StrLenTo(s, i + 1, n);
    }
  }

  function AppendLabel(text: Text, piece: Text): Text {
    if text == [] then CString(piece) else text + [DOT] + CString(piece)
  }

  /** The text a parser holds after reading `labels` behind `text`. */
  function AppendLabels(text: Text, labels: seq<Text>): Text
    decreases |labels|
  {
    if labels == [] then text else AppendLabels(AppendLabel(text, labels[0]), labels[1..])
  }

  // ----- Writing -----

  /** The labels of a host whose current label starts at `begin`, scanning from `i`. */
  function LabelsFrom(host: Text, begin: nat, i: nat): seq<Text>
    requires begin <= i <= |host|
    decreases |host| - i
  {
    if i == |host| then [host[begin..i]]
    else if host[i] == DOT then [host[begin..i]] + LabelsFrom(host, i + 1, i + 1)
    else LabelsFrom(host, begin, i + 1)
  }

  function HostLabels(host: Text): seq<Text> {
    LabelsFrom(host, 0, 0)
  }

  /** Each label behind its length byte. */
  function EncodeLabels(labels: seq<Text>): seq<byte> {
    if labels == [] then [] else [|labels[0]| % 256] + labels[0] + EncodeLabels(labels[1..])
  }

  function EncodeName(labels: seq<Text>): seq<byte> {
    EncodeLabels(labels) + [0]
  }

  /** Section 2.3.4 of RFC 1035: labels have 1 to 63 bytes. */
  predicate LabelLengths(labels: seq<Text>) {
    forall l :: l in labels ==> 1 <= |l| <= 63
  }

  /** The hosts for which the label bounds, kept in unsigned chars, do not wrap: see `BoundsExactIff`. */
  predicate HostFits(host: Text) {
    host != [] && host[0] != DOT && |host| <= 256 && (|host| == 256 ==> host[255] != DOT)
  }

  /** A host name as section 2.3.4 of RFC 1035 wants it. */
  predicate ValidHost(host: Text) {
    HostFits(host) && 0 !in host && LabelLengths(HostLabels(host))
  }

  lemma {:induction false} EncodeAppend(a: seq<Text>, b: seq<Text>)
    ensures EncodeLabels(a + b) == EncodeLabels(a) + EncodeLabels(b)
  {
    if a == [] {
      assert a + b == b;
    } else {
      assert (a + b)[1..] == a[1..] + b;
      EncodeAppend(a[1..], b);
    }
  }

  /** The encoding of one more label extends the encoding of those before it. */
  lemma EncodeNext(labels: seq<Text>, k: nat)
    requires k < |labels|
    ensures EncodeLabels(labels[..k + 1]) == EncodeLabels(labels[..k]) + ([|labels[k]| % 256] + labels[k])
    ensures |EncodeLabels(labels[..k + 1])| <= |EncodeLabels(labels)|
  {
    var last := [labels[k]];
    assert EncodeLabels(last) == [|labels[k]| % 256] + labels[k] + EncodeLabels(last[1..]);
    assert labels[..k + 1] == labels[..k] + last;
    EncodeAppend(labels[..k], last);
    assert labels == labels[..k + 1] + labels[k + 1..];
    EncodeAppend(labels[..k + 1], labels[k + 1..]);
  }

  lemma {:induction false} LabelsFromShape(host: Text, begin: nat, i: nat)
    requires begin <= i <= |host|
    requires DOT !in host[begin..i]
    ensures LabelsFrom(host, begin, i) != []
    ensures forall l :: l in LabelsFrom(host, begin, i) ==> |l| <= |host| - begin && DOT !in l
    decreases |host| - i
  {
    if i < |host| {
      if host[i] == DOT {
        LabelsFromShape(host, i + 1, i + 1);
      } else {
        LabelsFromShape(host, begin, i + 1);
      }
    }
  }

  /** The encoded name is two bytes longer than the host it encodes. */
  lemma {:induction false} EncodedLength(host: Text, begin: nat, i: nat)
    requires begin <= i <= |host|
    ensures |EncodeLabels(LabelsFrom(host, begin, i))| == |host| - begin + 1
    decreases |host| - i
  {
    if i < |host| {
      if host[i] == DOT {
        EncodedLength(host, i + 1, i + 1);
      } else {
        EncodedLength(host, begin, i + 1);
      }
    }
  }

  /** `text` holds the host up to the dot before `begin`. */
  predicate TextBefore(host: Text, begin: nat, text: Text)
    requires begin <= |host|
  {
    if begin == 0 then text == []
    else host[begin - 1] == DOT && text == host[..begin - 1] && text != []
  }

  lemma AppendSlice(host: Text, begin: nat, i: nat, text: Text)
    requires begin <= i <= |host| && 0 !in host && TextBefore(host, begin, text)
    ensures AppendLabel(text, host[begin..i]) == host[..i]
  {
    CStringWhole(host[begin..i]);
    if begin > 0 {
      assert host[..begin] == host[..begin - 1] + [DOT];
      assert host[..i] == host[..begin] + host[begin..i];
    }
  }

  /** Reading the labels of a host back joins them to the host again. */
  lemma {:induction false} AppendHostLabels(host: Text, begin: nat, i: nat, text: Text)
    requires begin <= i <= |host| && 0 !in host && TextBefore(host, begin, text)
    requires LabelLengths(LabelsFrom(host, begin, i))
    ensures AppendLabels(text, LabelsFrom(host, begin, i)) == host
    decreases |host| - i
  {
    var labels := LabelsFrom(host, begin, i);
    if i == |host| {
      AppendSlice(host, begin, i, text);
      assert host[..i] == host;
      assert labels[1..] == [];
    } else if host[i] == DOT {
      AppendSlice(host, begin, i, text);
      var rest := LabelsFrom(host, i + 1, i + 1);
      assert labels[1..] == rest;
      assert |host[begin..i]| >= 1 by {
        assert host[begin..i] in labels;
      }
      AppendHostLabels(host, i + 1, i + 1, host[..i]);
    } else {
      AppendHostLabels(host, begin, i + 1, text);
    }
  }

  /** Where the labels of a host start and end. */
  function Spans(host: Text, begin: nat, i: nat): seq<(nat, nat)>
    requires begin <= i <= |host|
    decreases |host| - i
  {
    if i == |host| then [(begin, i)]
    else if host[i] == DOT then [(begin, i)] + Spans(host, i + 1, i + 1)
    else Spans(host, begin, i + 1)
  }

  /** The first and last position of a label, kept in unsigned chars. */
  function Wrap(span: (nat, nat)): (byte, byte) {
    (span.0 % 256, (span.1 as int - 1) % 256)
  }

  function Wrapped(spans: seq<(nat, nat)>): seq<(byte, byte)> {
    seq(|spans|, k requires 0 <= k < |spans| => Wrap(spans[k]))
  }

  function Bounds(host: Text): seq<(byte, byte)> {
    Wrapped(Spans(host, 0, 0))
  }

  /** The span's bounds are kept as they are. */
  predicate Exact(span: (nat, nat)) {
    Wrap(span) == (span.0, span.1 - 1)
  }

  lemma {:induction false} SpansAreLabels(host: Text, begin: nat, i: nat)
    requires begin <= i <= |host| && (begin > 0 ==> host[begin - 1] == DOT)
    ensures |Spans(host, begin, i)| == |LabelsFrom(host, begin, i)| > 0
    ensures forall k :: 0 <= k < |Spans(host, begin, i)| ==>
              var span := Spans(host, begin, i)[k];
              span.0 <= span.1 <= |host| && host[span.0..span.1] == LabelsFrom(host, begin, i)[k] &&
              (span.0 > 0 ==> host[span.0 - 1] == DOT)
    decreases |host| - i
  {
    if i < |host| {
      if host[i] == DOT {
        SpansAreLabels(host, i + 1, i + 1);
      } else {
        SpansAreLabels(host, begin, i + 1);
      }
    }
  }

  lemma {:induction false} OuterSpans(host: Text, begin: nat, i: nat)
    requires begin <= i <= |host|
    ensures var spans := Spans(host, begin, i);
            spans != [] && spans[0].0 == begin && spans[0].1 >= i && spans[|spans| - 1].1 == |host| &&
            (spans[0].1 < |host| ==> host[spans[0].1] == DOT) &&
            (|host| > i && host[|host| - 1] == DOT ==> spans[|spans| - 1].0 == |host|)
    decreases |host| - i
  {
    if i < |host| {
      if host[i] == DOT {
        OuterSpans(host, i + 1, i + 1);
      } else {
        OuterSpans(host, begin, i + 1);
      }
    }
  }

  /** The bounds of all labels survive in unsigned chars exactly for the fitting hosts. */
  lemma BoundsExactIff(host: Text)
    ensures (forall k :: 0 <= k < |Spans(host, 0, 0)| ==> Exact(Spans(host, 0, 0)[k])) <==> HostFits(host)
  {
    var spans := Spans(host, 0, 0);
    SpansAreLabels(host, 0, 0);
    OuterSpans(host, 0, 0);
    if HostFits(host) {
      assert spans[0].1 > 0 by {
        FirstSpan(host);
      }
      forall k | 0 <= k < |spans|
        ensures Exact(spans[k])
      {
        if spans[k].0 == 0 {
          FirstOnly(host, 0, 0, k);
        }
      }
    } else if forall k :: 0 <= k < |spans| ==> Exact(spans[k]) {
      assert Exact(spans[0]) && Exact(spans[|spans| - 1]);
      FirstSpan(host);
    }
  }

  lemma FirstSpan(host: Text)
    ensures var spans := Spans(host, 0, 0); spans != [] && (spans[0].1 > 0 <==> host != [] && host[0] != DOT)
  {
    if host != [] && host[0] != DOT {
      OuterSpans(host, 0, 1);
    }
  }

  /** Only the first span can start at the beginning. */
  lemma {:induction false} FirstOnly(host: Text, begin: nat, i: nat, k: nat)
    requires begin <= i <= |host| && k < |Spans(host, begin, i)| && Spans(host, begin, i)[k].0 <= begin
    ensures k == 0
    decreases |host| - i
  {
    if i < |host| {
      if host[i] == DOT {
        if k > 0 {
          SpansStart(host, i + 1, i + 1, k - 1);
        }
      } else {
        FirstOnly(host, begin, i + 1, k);
      }
    }
  }

  lemma {:induction false} SpansStart(host: Text, begin: nat, i: nat, k: nat)
    requires begin <= i <= |host| && k < |Spans(host, begin, i)|
    ensures Spans(host, begin, i)[k].0 >= begin
    decreases |host| - i
  {
    if i < |host| {
      if host[i] == DOT {
        if k > 0 {
          SpansStart(host, i + 1, i + 1, k - 1);
        }
      } else {
        SpansStart(host, begin, i + 1, k);
      }
    }
  }

  /** The scan of `generate` for the bounds of every label; `total` counts the bytes that are no dots. */
  method LabelBounds(host: Text) returns (bounds: seq<(byte, byte)>, total: nat)
    ensures bounds == Bounds(host) && |bounds| + total == |host| + 1
  {
    bounds, total := [], 0;
    var lastBegin := 0;
    ghost var found: seq<(nat, nat)> := [];
    for i := 0 to |host|
      invariant lastBegin <= i && |bounds| + total == i
      invariant found + Spans(host, lastBegin, i) == Spans(host, 0, 0) && bounds == Wrapped(found)
    {
      if host[i] == DOT {
        bounds := bounds + [(lastBegin % 256, (i - 1) % 256)];
        found := found + [(lastBegin, i)];
        lastBegin := i + 1;
      } else {
        total := total + 1;
      }
    }
    bounds := bounds + [(lastBegin % 256, (|host| - 1) % 256)];
  }

  /** What is written for one label: its length byte, then the bytes within its bounds, read from `text`. */
  function Piece(text: Text, bound: (byte, byte)): Access<seq<byte>> {
    var len: int := bound.1 - bound.0 + 1;
    if bound.0 > bound.1 then Got([len % 256])
    else if bound.1 >= |text| then Overrun
    else Got([len % 256] + text[bound.0..bound.1 + 1])
  }

  function Pieces(text: Text, bounds: seq<(byte, byte)>): Access<seq<byte>> {
    if bounds == [] then Got([])
    else
      var first :- Piece(text, bounds[0]);
      var rest :- Pieces(text, bounds[1..]);
      Got(first + rest)
  }

  /** What `generate` writes for any name; the text ends in the NUL behind the name. */
  function Encoding(name: Text): Access<seq<byte>> {
    var bs :- Pieces(name + [0], Bounds(CString(name)));
    Got(bs + [0])
  }

  lemma ExactPiece(text: Text, span: (nat, nat), part: Text)
    requires span.0 <= span.1 <= |text| && text[span.0..span.1] == part && Exact(span)
    ensures Piece(text, Wrap(span)) == Got([|part| % 256] + part)
  {
    if span.0 == span.1 {
      assert [0] + part == [0];
    }
  }

  lemma {:induction false} PiecesOfLabels(text: Text, spans: seq<(nat, nat)>, labels: seq<Text>)
    requires |spans| == |labels|
    requires forall k :: 0 <= k < |spans| ==> Piece(text, Wrap(spans[k])) == Got([|labels[k]| % 256] + labels[k])
    ensures Pieces(text, Wrapped(spans)) == Got(EncodeLabels(labels))
  {
    if spans != [] {
      hide Piece, Wrap;
      assert Wrapped(spans)[1..] == Wrapped(spans[1..]);
      PiecesOfLabels(text, spans[1..], labels[1..]);
    }
  }

  lemma SliceOfPrefix(host: Text, text: Text, from: nat, to: nat)
    requires from <= to <= |host| && host <= text
    ensures host[from..to] == text[from..to]
  {
    assert host == text[..|host|];
    assert text[..|host|][from..to] == text[from..to];
  }

  /** For a fitting host that is its labels behind their length bytes. */
  lemma EncodingOfFitting(name: Text)
    requires HostFits(CString(name))
    ensures Encoding(name) == Got(EncodeName(HostLabels(CString(name))))
  {
    var host, text := CString(name), name + [0];
    var spans := Spans(host, 0, 0);
    hide Exact, Spans, LabelsFrom, StrLen, Piece, Wrap;
    SpansAreLabels(host, 0, 0);
    BoundsExactIff(host);
    forall k | 0 <= k < |spans|
      ensures Piece(text, Wrap(spans[k])) == Got([|HostLabels(host)[k]| % 256] + HostLabels(host)[k])
    {
      SliceOfPrefix(host, text, spans[k].0, spans[k].1);
      ExactPiece(text, spans[k], HostLabels(host)[k]);
    }
    PiecesOfLabels(text, spans, HostLabels(host));
  }

  /** A name whose C string is empty or begins with a dot, in a string of at most 254 bytes. */
  predicate LeavesString(name: Text) {
    |name| <= 254 && (CString(name) == [] || CString(name)[0] == DOT)
  }

  lemma {:induction false} PiecesOverrunIff(text: Text, bounds: seq<(byte, byte)>)
    ensures Pieces(text, bounds).Overrun? <==> exists k :: 0 <= k < |bounds| && Piece(text, bounds[k]).Overrun?
  {
    if bounds != [] {
      hide Piece;
      PiecesOverrunIff(text, bounds[1..]);
      if Pieces(text, bounds[1..]).Overrun? {
        var k :| 0 <= k < |bounds| - 1 && Piece(text, bounds[1..][k]).Overrun?;
        assert Piece(text, bounds[k + 1]).Overrun?;
      }
      if exists k :: 0 < k < |bounds| && Piece(text, bounds[k]).Overrun? {
        var k :| 0 < k < |bounds| && Piece(text, bounds[k]).Overrun?;
        assert Piece(text, bounds[1..][k - 1]).Overrun?;
      }
    }
  }

  lemma PieceOverrunIff(text: Text, host: Text, span: (nat, nat))
    requires span.0 <= span.1 <= |host| < |text|
    ensures Piece(text, Wrap(span)).Overrun? <==> span.1 == 0 && |text| <= 255
  {
    assert span.1 > 0 ==> Wrap(span).1 <= span.1 - 1;
  }

  /** `generate` reads outside the string exactly for these names. */
  lemma LeavesStringIff(name: Text)
    ensures Encoding(name).Overrun? <==> LeavesString(name)
  {
    hide Piece, Pieces, Wrap, StrLen, Spans, LabelsFrom;
    var host, text := CString(name), name + [0];
    var spans := Spans(host, 0, 0);
    SpansAreLabels(host, 0, 0);
    FirstSpan(host);
    PiecesOverrunIff(text, Bounds(host));
    forall k | 0 <= k < |spans|
      ensures Piece(text, Bounds(host)[k]).Overrun? <==> spans[k].1 == 0 && |text| <= 255
    {
      PieceOverrunIff(text, host, spans[k]);
    }
    forall k | 0 <= k < |spans| && spans[k].1 == 0
      ensures k == 0
    {
      FirstOnly(host, 0, 0, k);
    }
    assert |Bounds(host)| == |spans| && spans[0].0 <= spans[0].1;
  }

  /** The empty host and the lone dot. */
  lemma EmptyHostLeavesString()
    ensures Encoding([]) == Overrun && Encoding([46]) == Overrun
  {
    hide Encoding;
    CStringWhole([]);
    CStringWhole([DOT]);
    LeavesStringIff([]);
    LeavesStringIff([DOT]);
  }

  /** The bytes written for any other name. */
  function Written(name: Text): seq<byte>
    requires !LeavesString(name)
  {
    LeavesStringIff(name);
    Encoding(name).value
  }

  /** Writes one label behind its length byte; reading or writing outside memory is an overrun. */
  method WriteLabel(mem: array<byte>, at: nat, text: Text, bound: (byte, byte)) returns (next: Access<nat>)
    requires at <= mem.Length
    modifies mem
    ensures match Piece(text, bound)
            case Overrun => next == Overrun
            case Got(bs) =>
              if at + |bs| <= mem.Length
              then next == Got(at + |bs|) && mem[..] == Stored(old(mem[..]), at, bs)
              else next == Overrun
  {
    hide Stored;
    var len: int := bound.1 - bound.0 + 1;
    if at >= mem.Length || (bound.0 <= bound.1 && (bound.1 >= |text| || at + 1 + len > mem.Length)) {
      return Overrun;
    }
    var i := at;
    ghost var start, done := mem[..], [len % 256];
    StoreByte(mem, i, len % 256);
    i := i + 1;
    if bound.0 <= bound.1 {
      for j: nat := bound.0 to bound.1 + 1
        invariant i == at + |done| && done == [len % 256] + text[bound.0..j]
        invariant mem[..] == Stored(start, at, done)
      {
        StoredTwice(start, at, done, [text[j]]);
        StoreByte(mem, i, text[j]);
        done := done + [text[j]];
        i := i + 1;
      }
    }
    return Got(i);
  }

  /** Pieces that come behind `done`. */
  function Behind(done: seq<byte>, rest: Access<seq<byte>>): Access<seq<byte>> {
    if rest.Overrun? then Overrun else Got(done + rest.value)
  }

  lemma NextPieces(text: Text, bounds: seq<(byte, byte)>, k: nat, done: seq<byte>)
    requires k < |bounds|
    ensures Behind(done, Pieces(text, bounds[k..])) ==
            match Piece(text, bounds[k])
            case Overrun => Overrun
            case Got(bs) => Behind(done + bs, Pieces(text, bounds[k + 1..]))
  {
    hide Piece;
    assert bounds[k..][1..] == bounds[k + 1..];
    if Piece(text, bounds[k]).Got? && Pieces(text, bounds[k + 1..]).Got? {
      var bs, rest := Piece(text, bounds[k]).value, Pieces(text, bounds[k + 1..]).value;
      assert done + (bs + rest) == done + bs + rest;
    }
  }

  /** `dns_domain::generate`: finds the label bounds, then writes length and bytes of each label in place. */
  method Generate(mem: array<byte>, at: nat, name: Text) returns (len: Access<nat>)
    modifies mem
    ensures match Encoding(name)
            case Overrun => len == Overrun
            case Got(bs) =>
              if at + |bs| <= mem.Length
              then len == Got(|CString(name)| + 2) && mem[..] == Stored(old(mem[..]), at, bs)
              else len == Overrun
  {
    hide Stored, StrLen, Bounds, Piece, Pieces;
    var text := name + [0];
    var bounds, total := LabelBounds(CString(name));
    var finalDataLen := |bounds| + total + 1;
    if at > mem.Length {
      return Overrun;
    }
    var i := at;
    ghost var start, done := mem[..], [];
    StoredNothing(start, at);
    assert bounds[0..] == bounds;
    AllBehindNothing(text, bounds);
    for k := 0 to |bounds|
      invariant Pieces(text, bounds) == Behind(done, Pieces(text, bounds[k..]))
      invariant i == at + |done| <= mem.Length && mem[..] == Stored(start, at, done)
    {
      NextPieces(text, bounds, k, done);
      ghost var piece := Piece(text, bounds[k]);
      if piece.Got? && i + |piece.value| <= mem.Length {
        StoredTwice(start, at, done, piece.value);
      }
      i :- WriteLabel(mem, i, text, bounds[k]);
      done := done + piece.value;
    }
    AllPieces(text, bounds, done);
    if i >= mem.Length {
      return Overrun;
    }
    StoredTwice(start, at, done, [0]);
    StoreByte(mem, i, 0);
    return Got(finalDataLen);
  }

  lemma AllBehindNothing(text: Text, bounds: seq<(byte, byte)>)
    ensures Pieces(text, bounds) == Behind([], Pieces(text, bounds))
  {
    if Pieces(text, bounds).Got? {
      assert [] + Pieces(text, bounds).value == Pieces(text, bounds).value;
    }
  }

  lemma AllPieces(text: Text, bounds: seq<(byte, byte)>, done: seq<byte>)
    ensures Behind(done, Pieces(text, bounds[|bounds|..])) == Got(done)
  {
    assert done + [] == done;
  }

  // ----- Reading -----

  /** What `parseRe` returns: the bytes consumed (0 on failure) and the text built so far. */
  datatype Name = Name(consumed: nat, text: Text)

  /** `parseRe` on a buffer of declared length `size` that may be part of larger memory. */
  function ParseName(mem: seq<byte>, size: nat, begin: nat, maxParse: nat, depth: nat, text: Text): Access<Name>
    decreases if depth > MAX_DEPTH then 0 else MAX_DEPTH + 1 - depth, maxParse, 1
  {
    if depth > MAX_DEPTH then Got(Name(0, text))
    else ParseFrames(mem, size, begin, maxParse, depth, 0, text)
  }

  /** What one turn of the loop of `parseRe` does with the frame byte it reads. */
  datatype Turn = Stop(r: Access<Name>) | Label(end: nat) | Jump(pos: nat)

  function FrameTurn(mem: seq<byte>, begin: nat, maxParse: nat, at: nat, text: Text): (t: Turn)
    requires at < maxParse
    ensures t.Label? ==> at + 1 < t.end <= at + 64 && t.end <= maxParse && begin + t.end <= |mem|
  {
    if begin + at >= |mem| then Stop(Overrun)
    else
      var frame := mem[begin + at];
      if frame >= 192 then
        if begin + at + 1 >= |mem| then Stop(Overrun)
        else
          var pos: nat := (frame as int) % 64 * 256 + mem[begin + at + 1];
          if pos == begin then Stop(Got(Name(at + 2, text))) else Jump(pos)
      else if frame >= 64 then Stop(Got(Name(at, text)))
      else if frame == 0 then Stop(Got(Name(at + 1, text)))
      else if maxParse - (at + 1) < frame then Stop(Got(Name(0, text)))
      else if begin + at + 1 + frame > |mem| then Stop(Overrun)
      else Label(at + 1 + frame)
  }

  /** The loop of `parseRe`, entered with `at` bytes consumed. */
  function ParseFrames(mem: seq<byte>, size: nat, begin: nat, maxParse: nat, depth: nat, at: nat, text: Text):
    Access<Name>
    requires depth <= MAX_DEPTH
    decreases MAX_DEPTH + 1 - depth, if at <= maxParse then maxParse - at else 0, 0
  {
    if at >= maxParse then Got(Name(at, text))
    else match FrameTurn(mem, begin, maxParse, at, text)
      case Stop(r) => r
      case Label(end) =>
        ParseFrames(mem, size, begin, maxParse, depth, end, AppendLabel(text, mem[begin + at + 1..begin + end]))
      case Jump(pos) =>
        var inner :- ParseName(mem, size, pos, WrappedMinus(TWO_TO_THE_64, size, pos), depth + 1, []);
        if inner.consumed == 0 then Got(Name(0, text))
        else if text == [] then Got(Name(at + 2, inner.text))
        else ParseFrames(mem, size, begin, maxParse, depth, at + 2, text + [DOT] + inner.text)
  }

  /** One turn of the loop, unfolded. */
  lemma OneTurn(mem: seq<byte>, size: nat, begin: nat, maxParse: nat, depth: nat, at: nat, text: Text)
    requires depth <= MAX_DEPTH
    ensures ParseFrames(mem, size, begin, maxParse, depth, at, text) ==
            if at >= maxParse then Got(Name(at, text))
            else match FrameTurn(mem, begin, maxParse, at, text)
              case Stop(r) => r
              case Label(end) =>
                ParseFrames(mem, size, begin, maxParse, depth, end,
                            AppendLabel(text, mem[begin + at + 1..begin + end]))
              case Jump(pos) =>
                match ParseName(mem, size, pos, WrappedMinus(TWO_TO_THE_64, size, pos), depth + 1, [])
                case Overrun => Overrun
                case Got(inner) =>
                  if inner.consumed == 0 then Got(Name(0, text))
                  else if text == [] then Got(Name(at + 2, inner.text))
                  else ParseFrames(mem, size, begin, maxParse, depth, at + 2, text + [DOT] + inner.text)
  {
    hide FrameTurn, WrappedMinus, AppendLabel;
  }

  /** Reads the frame byte of one turn, and the second byte of a pointer. */
  method ReadFrame(mem: array<byte>, base: nat, begin: nat, maxParse: nat, at: nat, text: Text) returns (t: Turn)
    requires base <= mem.Length && at < maxParse
    ensures t == FrameTurn(mem[base..], begin, maxParse, at, text)
  {
    var p := base + begin + at;
    if p >= mem.Length {
      return Stop(Overrun);
    }
    var frame := mem[p];
    if frame >= 192 {
      if p + 1 >= mem.Length {
        return Stop(Overrun);
      }
      var pos: nat := (frame as int) % 64 * 256 + mem[p + 1];
      return if pos == begin then Stop(Got(Name(at + 2, text))) else Jump(pos);
    } else if frame < 64 {
      if frame == 0 {
        return Stop(Got(Name(at + 1, text)));
      }
      if maxParse - (at + 1) < frame {
        return Stop(Got(Name(0, text)));
      }
      return if p + 1 + frame > mem.Length then Stop(Overrun) else Label(at + 1 + frame);
    }
    return Stop(Got(Name(at, text)));
  }

  /** The bytes of a label, copied out of the buffer. */
  method CopyLabel(mem: array<byte>, base: nat, from: nat, to: nat) returns (piece: seq<byte>)
    requires from <= to && base + to <= mem.Length
    ensures piece == mem[base..][from..to]
  {
    piece := mem[base + from..base + to];
    ghost var behind := mem[base..];
    forall k | 0 <= k < to - from
      ensures piece[k] == behind[from..to][k]
    {
      assert behind[from + k] == mem[base + from + k];
    }
  }

  /** `parseRe`, reading through a data pointer `base` bytes into memory. */
  method ParseRe(mem: array<byte>, base: nat, size: nat, begin: nat, maxParse: nat, depth: nat, text: Text)
    returns (r: Access<Name>)
    requires base <= mem.Length
    ensures r == ParseName(mem[base..], size, begin, maxParse, depth, text)
    decreases if depth > MAX_DEPTH then 0 else MAX_DEPTH + 1 - depth, maxParse
  {
    hide FrameTurn, WrappedMinus, AppendLabel, ParseFrames;
    if depth > MAX_DEPTH {
      return Got(Name(0, text));
    }
    var domain := text;
    var at := 0;
    ghost var m := mem[base..];
    while at < maxParse
      invariant ParseName(m, size, begin, maxParse, depth, text) ==
                ParseFrames(m, size, begin, maxParse, depth, at, domain)
    {
      OneTurn(m, size, begin, maxParse, depth, at, domain);
      var turn := ReadFrame(mem, base, begin, maxParse, at, domain);
      match turn
      case Stop(result) =>
        return result;
      case Label(end) =>
        var piece := CopyLabel(mem, base, begin + at + 1, begin + end);
        domain := AppendLabel(domain, piece);
        at := end;
      case Jump(pos) =>
        var inner :- ParseRe(mem, base, size, pos, WrappedMinus(TWO_TO_THE_64, size, pos), depth + 1, []);
        at := at + 2;
        if inner.consumed == 0 {
          return Got(Name(0, domain));
        }
        if domain == [] {
          return Got(Name(at, inner.text));
        }
        domain := domain + [DOT] + inner.text;
    }
    OneTurn(m, size, begin, maxParse, depth, at, domain);
    return Got(Name(at, domain));
  }
}
