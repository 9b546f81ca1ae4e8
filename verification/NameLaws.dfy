/** What reading names guarantees: round trips, pointer chains and cycles, and where compression goes wrong. */
module NameLaws {
  import opened Bytes
  import opened DomainNames
  import opened Sequences

  predicate HoldsAt(mem: seq<byte>, at: nat, bs: seq<byte>) {
    at + |bs| <= |mem| && mem[at..at + |bs|] == bs
  }

  lemma HoldsParts(mem: seq<byte>, at: nat, a: seq<byte>, b: seq<byte>)
    requires HoldsAt(mem, at, a + b)
    ensures HoldsAt(mem, at, a) && HoldsAt(mem, at + |a|, b)
  {
    assert mem[at..at + |a|] == (a + b)[..|a|];
    assert mem[at + |a|..at + |a| + |b|] == (a + b)[|a|..];
  }

  /** For every memory, `parseRe` consumes at most one byte more than it was allowed to. */
  lemma {:induction false} ConsumedBound(mem: seq<byte>, size: nat, begin: nat, maxParse: nat, depth: nat, text: Text)
    ensures var r := ParseName(mem, size, begin, maxParse, depth, text); r.Got? ==> r.value.consumed <= maxParse + 1
  {
    if depth <= MAX_DEPTH {
      FramesBound(mem, size, begin, maxParse, depth, 0, text);
    }
  }

  /** The loop either fails with 0 or never gives back bytes it has consumed. */
  lemma {:induction false} FramesBound(mem: seq<byte>, size: nat, begin: nat, maxParse: nat, depth: nat, at: nat,
                                       text: Text)
    requires depth <= MAX_DEPTH && at <= maxParse + 1
    ensures var r := ParseFrames(mem, size, begin, maxParse, depth, at, text);
            r.Got? ==> r.value.consumed == 0 || at <= r.value.consumed <= maxParse + 1
    decreases maxParse + 1 - at
  {
    hide ParseFrames, WrappedMinus, AppendLabel;
    OneTurn(mem, size, begin, maxParse, depth, at, text);
    if at < maxParse {
      match FrameTurn(mem, begin, maxParse, at, text)
      case Stop(_) =>
      case Label(end) =>
        FramesBound(mem, size, begin, maxParse, depth, end, AppendLabel(text, mem[begin + at + 1..begin + end]));
      case Jump(pos) =>
        var inner := ParseName(mem, size, pos, WrappedMinus(TWO_TO_THE_64, size, pos), depth + 1, []);
        if inner.Got? && inner.value.consumed != 0 && text != [] {
          FramesBound(mem, size, begin, maxParse, depth, at + 2, text + [DOT] + inner.value.text);
        }
    }
  }

  // ----- Spelled-out names -----

  lemma LabelFrame(mem: seq<byte>, begin: nat, maxParse: nat, at: nat, text: Text, piece: Text, end: nat)
    requires 1 <= |piece| <= 63 && end == at + 1 + |piece| <= maxParse
    requires HoldsAt(mem, begin + at, [|piece| % 256] + piece)
    ensures FrameTurn(mem, begin, maxParse, at, text) == Label(end)
    ensures begin + end <= |mem| && mem[begin + at + 1..begin + end] == piece
  {
    var held := mem[begin + at..begin + end];
    assert held[0] == |piece|;
    assert held[1..] == piece;
  }

  lemma LabelTurn(mem: seq<byte>, size: nat, begin: nat, maxParse: nat, depth: nat, at: nat, text: Text, piece: Text,
                  end: nat)
    requires depth <= MAX_DEPTH && 1 <= |piece| <= 63 && end == at + 1 + |piece| <= maxParse
    requires HoldsAt(mem, begin + at, [|piece| % 256] + piece)
    ensures ParseFrames(mem, size, begin, maxParse, depth, at, text) ==
            ParseFrames(mem, size, begin, maxParse, depth, end, AppendLabel(text, piece))
  {
    hide ParseFrames, AppendLabel, FrameTurn, HoldsAt, WrappedMinus;
    LabelFrame(mem, begin, maxParse, at, text, piece, end);
    OneTurn(mem, size, begin, maxParse, depth, at, text);
  }

  lemma {:induction false} ReadLabels(mem: seq<byte>, size: nat, begin: nat, maxParse: nat, depth: nat, at: nat,
                                      text: Text, labels: seq<Text>, end: nat)
    requires depth <= MAX_DEPTH && LabelLengths(labels)
    requires HoldsAt(mem, begin + at, EncodeLabels(labels)) && end == at + |EncodeLabels(labels)| <= maxParse
    ensures ParseFrames(mem, size, begin, maxParse, depth, at, text) ==
            ParseFrames(mem, size, begin, maxParse, depth, end, AppendLabels(text, labels))
    decreases |labels|
  {
    hide ParseFrames;
    if labels != [] {
      var piece, rest := labels[0], labels[1..];
      assert piece in labels;
      HoldsParts(mem, begin + at, [|piece| % 256] + piece, EncodeLabels(rest));
      var next := at + 1 + |piece|;
      assert LabelLengths(rest);
      LabelTurn(mem, size, begin, maxParse, depth, at, text, piece, next);
      ReadLabels(mem, size, begin, maxParse, depth, next, AppendLabel(text, piece), rest, end);
    }
  }

  /** A name spelled out in memory is read whole, whatever surrounds it. */
  lemma ReadSpelledName(mem: seq<byte>, size: nat, begin: nat, maxParse: nat, depth: nat, labels: seq<Text>)
    requires depth <= MAX_DEPTH && LabelLengths(labels)
    requires HoldsAt(mem, begin, EncodeName(labels)) && |EncodeName(labels)| <= maxParse
    ensures ParseName(mem, size, begin, maxParse, depth, []) ==
            Got(Name(|EncodeName(labels)|, AppendLabels([], labels)))
  {
    hide ParseFrames;
    HoldsParts(mem, begin, EncodeLabels(labels), [0]);
    var end := |EncodeLabels(labels)|;
    ReadLabels(mem, size, begin, maxParse, depth, 0, [], labels, end);
    assert mem[begin + end] == mem[begin + end..begin + end + 1][0] == 0;
    ZeroFrame(mem, size, begin, maxParse, depth, end, AppendLabels([], labels));
  }

  lemma ZeroFrame(mem: seq<byte>, size: nat, begin: nat, maxParse: nat, depth: nat, at: nat, text: Text)
    requires depth <= MAX_DEPTH && at < maxParse && begin + at < |mem| && mem[begin + at] == 0
    ensures ParseFrames(mem, size, begin, maxParse, depth, at, text) == Got(Name(at + 1, text))
  {
    hide ParseFrames;
    OneTurn(mem, size, begin, maxParse, depth, at, text);
  }

  /** The text read from a valid host's encoding is the host. */
  lemma ReadHost(mem: seq<byte>, size: nat, begin: nat, maxParse: nat, depth: nat, host: Text)
    requires depth <= MAX_DEPTH && ValidHost(host)
    requires HoldsAt(mem, begin, EncodeName(HostLabels(host))) && |host| + 2 <= maxParse
    ensures ParseName(mem, size, begin, maxParse, depth, []) == Got(Name(|host| + 2, host))
  {
    EncodedLength(host, 0, 0);
    ReadSpelledName(mem, size, begin, maxParse, depth, HostLabels(host));
    AppendHostLabels(host, 0, 0, []);
  }

  // ----- The exact condition for the round trip -----

  predicate DotWithin(text: Text, i: nat) {
    i + 64 <= |text| ==> DOT in text[i..i + 64]
  }

  /** No 64 bytes in a row lie between dots. */
  ghost predicate ShortRuns(text: Text) {
    forall i: nat :: DotWithin(text, i)
  }

  lemma ShortRunsJoin(a: Text, b: Text)
    requires ShortRuns(a) && ShortRuns(b)
    ensures ShortRuns(a + [DOT] + b)
  {
    var whole := a + [DOT] + b;
    forall i: nat
      ensures DotWithin(whole, i)
    {
      if i + 64 <= |whole| {
        var window := whole[i..i + 64];
        if i + 64 <= |a| {
          assert DotWithin(a, i) && window == a[i..i + 64];
        } else if i <= |a| {
          assert whole[|a|] == DOT && window[|a| - i] == whole[|a|];
        } else {
          var k := i - |a| - 1;
          assert DotWithin(b, k) && window == b[k..k + 64];
        }
      }
    }
  }

  /** Whatever the bytes, no name read by `parseRe` has a label longer than 63 bytes. */
  lemma {:induction false} ReadRunsAreShort(mem: seq<byte>, size: nat, begin: nat, maxParse: nat, depth: nat,
                                            text: Text)
    requires ShortRuns(text)
    ensures var r := ParseName(mem, size, begin, maxParse, depth, text); r.Got? ==> ShortRuns(r.value.text)
    decreases if depth > MAX_DEPTH then 0 else MAX_DEPTH + 1 - depth, maxParse, 1
  {
    if depth <= MAX_DEPTH {
      FrameRunsAreShort(mem, size, begin, maxParse, depth, 0, text);
    }
  }

  lemma {:induction false} FrameRunsAreShort(mem: seq<byte>, size: nat, begin: nat, maxParse: nat, depth: nat, at: nat,
                                             text: Text)
    requires depth <= MAX_DEPTH && ShortRuns(text)
    ensures var r := ParseFrames(mem, size, begin, maxParse, depth, at, text); r.Got? ==> ShortRuns(r.value.text)
    decreases MAX_DEPTH + 1 - depth, if at <= maxParse then maxParse - at else 0, 0
  {
    hide ShortRuns, ParseFrames, WrappedMinus, AppendLabel;
    OneTurn(mem, size, begin, maxParse, depth, at, text);
    if at < maxParse {
      match FrameTurn(mem, begin, maxParse, at, text)
      case Stop(_) =>
      case Label(end) =>
        var piece := mem[begin + at + 1..begin + end];
        LongerIsShort(text, piece);
        FrameRunsAreShort(mem, size, begin, maxParse, depth, end, AppendLabel(text, piece));
      case Jump(pos) =>
        var rest := WrappedMinus(TWO_TO_THE_64, size, pos);
        ShortPiece([]);
        ReadRunsAreShort(mem, size, pos, rest, depth + 1, []);
        var inner := ParseName(mem, size, pos, rest, depth + 1, []);
        if inner.Got? && inner.value.consumed != 0 && text != [] {
          ShortRunsJoin(text, inner.value.text);
          FrameRunsAreShort(mem, size, begin, maxParse, depth, at + 2, text + [DOT] + inner.value.text);
        }
    }
  }

  lemma LongerIsShort(text: Text, piece: Text)
    requires ShortRuns(text) && |piece| < 64
    ensures ShortRuns(AppendLabel(text, piece))
  {
    hide ShortRuns;
    ShortPiece(piece);
    ShortRunsJoin(text, CString(piece));
  }

  lemma ShortPiece(piece: Text)
    requires |piece| < 64
    ensures ShortRuns(piece) && ShortRuns(CString(piece))
  {
  }

  // ----- Labels behind wrapped bounds -----

  /** The bytes that the wrapped bounds select are the label's own. */
  predicate Kept(host: Text, span: (nat, nat)) {
    span.0 <= span.1 <= |host| &&
    host[span.0 % 256..span.0 % 256 + (span.1 - span.0)] == host[span.0..span.1]
  }

  /** First and last byte of the label lie within one block of 256 bytes. */
  predicate InOneBlock(span: (nat, nat)) {
    span.0 / 256 == (span.1 as int - 1) / 256
  }

  /** The label has 1 to 63 bytes. */
  predicate Proper(span: (nat, nat)) {
    span.0 < span.1 <= span.0 + 63
  }

  /** A label that is written as it should be and read as it was. */
  predicate Sound(host: Text, span: (nat, nat)) {
    Proper(span) && InOneBlock(span) && Kept(host, span)
  }

  /** No label of proper length reaches from one block of 256 bytes into the next. */
  predicate BlocksRespected(host: Text) {
    forall k :: 0 <= k < |Spans(host, 0, 0)| ==>
      Proper(Spans(host, 0, 0)[k]) ==> InOneBlock(Spans(host, 0, 0)[k])
  }

  predicate AllKept(host: Text) {
    forall k :: 0 <= k < |Spans(host, 0, 0)| ==> Kept(host, Spans(host, 0, 0)[k])
  }

  /** The piece of a label that does not reach into the next block. */
  lemma BlockPiece(name: Text, span: (nat, nat))
    requires Proper(span) && span.1 <= |CString(name)| && InOneBlock(span)
    ensures var host, first, n := CString(name), span.0 % 256, span.1 - span.0;
            first + n <= |host| && Piece(name + [0], Wrap(span)) == Got([n] + host[first..first + n])
  {
    hide StrLen;
    var host, text, first, n := CString(name), name + [0], span.0 % 256, span.1 - span.0;
    assert Wrap(span).0 == first && Wrap(span).1 == first + n - 1;
    SliceOfPrefix(host, text, first, first + n);
  }

  lemma SpanIsLabel(host: Text, k: nat)
    requires k < |Spans(host, 0, 0)|
    ensures |Spans(host, 0, 0)| == |HostLabels(host)|
    ensures var span := Spans(host, 0, 0)[k];
            span.0 <= span.1 <= |host| && host[span.0..span.1] == HostLabels(host)[k] &&
            (span.0 > 0 ==> host[span.0 - 1] == DOT)
  {
    hide Spans, LabelsFrom;
    SpansAreLabels(host, 0, 0);
  }

  lemma SoundPiece(name: Text, k: nat)
    requires k < |Spans(CString(name), 0, 0)| && Sound(CString(name), Spans(CString(name), 0, 0)[k])
    ensures |Spans(CString(name), 0, 0)| == |HostLabels(CString(name))|
    ensures var l := HostLabels(CString(name))[k];
            1 <= |l| <= 63 &&
            Piece(name + [0], Wrap(Spans(CString(name), 0, 0)[k])) == Got([|l| % 256] + l)
  {
    hide Spans, LabelsFrom, StrLen, Piece, Wrap;
    SpanIsLabel(CString(name), k);
    BlockPiece(name, Spans(CString(name), 0, 0)[k]);
  }

  /** The first `j` labels are sound. */
  predicate SoundUpTo(host: Text, j: nat) {
    j <= |Spans(host, 0, 0)| && forall k :: 0 <= k < j ==> Sound(host, Spans(host, 0, 0)[k])
  }

  lemma WrappedPrefix(spans: seq<(nat, nat)>, j: nat)
    requires j <= |spans|
    ensures |Wrapped(spans)| == |spans| && Wrapped(spans)[..j] == Wrapped(spans[..j])
    ensures j < |spans| ==> Wrapped(spans)[j] == Wrap(spans[j])
  {
    forall k | 0 <= k < j
      ensures Wrapped(spans)[k] == Wrapped(spans[..j])[k]
    {
      assert spans[..j][k] == spans[k];
    }
  }

  lemma {:induction false} PiecesSplit(text: Text, bounds: seq<(byte, byte)>, j: nat)
    requires j <= |bounds| && Pieces(text, bounds).Got?
    ensures Pieces(text, bounds[..j]).Got? && Pieces(text, bounds[j..]).Got?
    ensures Pieces(text, bounds).value == Pieces(text, bounds[..j]).value + Pieces(text, bounds[j..]).value
  {
    hide Piece;
    if j == 0 {
      assert bounds[0..] == bounds;
    } else {
      PiecesSplit(text, bounds[1..], j - 1);
      assert bounds[1..][..j - 1] == bounds[..j][1..] && bounds[1..][j - 1..] == bounds[j..];
    }
  }

  lemma WrittenParts(name: Text)
    requires !LeavesString(name)
    ensures var bs := Pieces(name + [0], Bounds(CString(name))); bs.Got? && Written(name) == bs.value + [0]
  {
    LeavesStringIff(name);
  }

  lemma SoundLabels(name: Text, j: nat)
    requires SoundUpTo(CString(name), j)
    ensures j <= |HostLabels(CString(name))| == |Spans(CString(name), 0, 0)|
    ensures LabelLengths(HostLabels(CString(name))[..j])
    ensures Pieces(name + [0], Wrapped(Spans(CString(name), 0, 0)[..j])) ==
            Got(EncodeLabels(HostLabels(CString(name))[..j]))
  {
    hide Spans, LabelsFrom, StrLen, Piece, Pieces, Wrap, Wrapped, Sound;
    var host := CString(name);
    SpansAreLabels(host, 0, 0);
    var spans, labels := Spans(host, 0, 0)[..j], HostLabels(host)[..j];
    forall k | 0 <= k < j
      ensures 1 <= |labels[k]| <= 63 && Piece(name + [0], Wrap(spans[k])) == Got([|labels[k]| % 256] + labels[k])
    {
      SoundPiece(name, k);
    }
    PiecesOfLabels(name + [0], spans, labels);
  }

  /** Behind sound labels, the bytes written go on with the piece of the next one, or with the final zero. */
  lemma WrittenBefore(name: Text, j: nat) returns (rest: seq<byte>)
    requires !LeavesString(name) && SoundUpTo(CString(name), j)
    ensures j <= |HostLabels(CString(name))| == |Spans(CString(name), 0, 0)|
    ensures LabelLengths(HostLabels(CString(name))[..j])
    ensures Written(name) == EncodeLabels(HostLabels(CString(name))[..j]) + rest
    ensures if j == |HostLabels(CString(name))| then rest == [0]
            else Piece(name + [0], Wrap(Spans(CString(name), 0, 0)[j])).Got? &&
                 Piece(name + [0], Wrap(Spans(CString(name), 0, 0)[j])).value <= rest
  {
    hide Spans, LabelsFrom, StrLen, Piece, Wrap, Wrapped, Sound, EncodeLabels, LabelLengths, Written, LeavesString,
         Pieces;
    var host, text := CString(name), name + [0];
    var bounds := Bounds(host);
    WrittenParts(name);
    SoundLabels(name, j);
    WrappedPrefix(Spans(host, 0, 0), j);
    PiecesSplit(text, bounds, j);
    var front, tail := EncodeLabels(HostLabels(host)[..j]), Pieces(text, bounds[j..]).value;
    rest := tail + [0];
    ConcatAssociative(front, tail, [0]);
    if j < |bounds| {
      assert bounds[j..][0] == bounds[j];
      FirstPiece(text, bounds[j..]);
    } else {
      NoPieces(text, bounds[j..]);
    }
  }

  lemma FirstPiece(text: Text, bounds: seq<(byte, byte)>)
    requires bounds != [] && Pieces(text, bounds).Got?
    ensures Piece(text, bounds[0]).Got? && Piece(text, bounds[0]).value <= Pieces(text, bounds).value + [0]
  {
    hide Piece;
  }

  lemma NoPieces(text: Text, bounds: seq<(byte, byte)>)
    requires bounds == []
    ensures Pieces(text, bounds) == Got([]) && [] + [0] == [0]
  {
  }

  /** Whatever its bounds became, an empty label is written with a zero in front. */
  lemma EmptyPiece(text: Text, span: (nat, nat))
    requires span.0 == span.1
    ensures var r := Piece(text, Wrap(span)); r.Got? ==> [0] <= r.value
  {
  }

  /** Behind sound labels, an empty label reads as the end of the name. */
  lemma EmptyLabelStops(mem: seq<byte>, size: nat, begin: nat, name: Text, j: nat)
    requires !LeavesString(name) && HoldsAt(mem, begin, Written(name))
    requires SoundUpTo(CString(name), j) && j < |HostLabels(CString(name))| && HostLabels(CString(name))[j] == []
    ensures var front := HostLabels(CString(name))[..j];
            |EncodeName(front)| < |CString(name)| + 2 &&
            ParseName(mem, size, begin, |CString(name)| + 2, 0, []) ==
            Got(Name(|EncodeName(front)|, AppendLabels([], front)))
  {
    hide ParseFrames, Written, LeavesString, AppendLabels, LabelsFrom, Spans, StrLen, EncodeLabels, HoldsAt, Sound,
         Piece, LabelLengths, Wrap;
    var host := CString(name);
    var labels, front := HostLabels(host), HostLabels(host)[..j];
    EncodedLength(host, 0, 0);
    EncodedAround(labels, j);
    var rest := WrittenBefore(name, j);
    SpanIsLabel(host, j);
    EmptyPiece(name + [0], Spans(host, 0, 0)[j]);
    PrefixPasses([0], Piece(name + [0], Wrap(Spans(host, 0, 0)[j])).value, rest);
    PrefixBehind(EncodeLabels(front), [0], rest);
    HoldsFront(mem, begin, EncodeName(front), Written(name));
    ReadSpelledName(mem, size, begin, |host| + 2, 0, front);
  }

  lemma EncodedAround(labels: seq<Text>, j: nat)
    requires j < |labels| && labels[j] == []
    ensures |EncodeLabels(labels[..j])| + 1 <= |EncodeLabels(labels)|
  {
    EncodeNext(labels, j);
  }

  lemma PrefixPasses(a: seq<byte>, b: seq<byte>, c: seq<byte>)
    requires a <= b <= c
    ensures a <= c
  {
  }

  lemma PrefixBehind(front: seq<byte>, a: seq<byte>, b: seq<byte>)
    requires a <= b
    ensures front + a <= front + b
  {
  }

  /** From a non-empty text on, the loop only appends. */
  lemma {:induction false} FramesAppend(mem: seq<byte>, size: nat, begin: nat, maxParse: nat, depth: nat, at: nat,
                                        text: Text)
    requires depth <= MAX_DEPTH && text != []
    ensures var r := ParseFrames(mem, size, begin, maxParse, depth, at, text); r.Got? ==> text <= r.value.text
    decreases if at <= maxParse then maxParse - at else 0
  {
    hide ParseFrames, WrappedMinus;
    OneTurn(mem, size, begin, maxParse, depth, at, text);
    if at < maxParse {
      match FrameTurn(mem, begin, maxParse, at, text)
      case Stop(_) =>
      case Label(end) =>
        FramesAppend(mem, size, begin, maxParse, depth, end, AppendLabel(text, mem[begin + at + 1..begin + end]));
      case Jump(pos) =>
        var inner := ParseName(mem, size, pos, WrappedMinus(TWO_TO_THE_64, size, pos), depth + 1, []);
        if inner.Got? && inner.value.consumed != 0 {
          FramesAppend(mem, size, begin, maxParse, depth, at + 2, text + [DOT] + inner.value.text);
        }
    }
  }

  /** The text of the labels before the `k`-th one ends where that label's dot stands. */
  lemma {:induction false} TextOfFront(host: Text, begin: nat, i: nat, text: Text, k: nat)
    requires begin <= i <= |host| && 0 !in host && TextBefore(host, begin, text)
    requires k < |LabelsFrom(host, begin, i)| && k < |Spans(host, begin, i)|
    requires LabelLengths(LabelsFrom(host, begin, i)[..k])
    ensures var at := Spans(host, begin, i)[k].0;
            at <= |host| && TextBefore(host, at, AppendLabels(text, LabelsFrom(host, begin, i)[..k]))
    decreases |host| - i
  {
    hide StrLen, AppendLabels, LabelsFrom, Spans, TextBefore, LabelLengths;
    if k == 0 {
      FirstStart(host, begin, i);
      NoLabels(text, LabelsFrom(host, begin, i));
    } else if i == |host| {
      LastLabelOnly(host, begin);
    } else if host[i] == DOT {
      NextLabels(host, begin, i, k);
      var first, rest := host[begin..i], LabelsFrom(host, i + 1, i + 1)[..k - 1];
      FirstLabelEnds(host, begin, i, text, rest);
      TextOfFront(host, i + 1, i + 1, host[..i], k - 1);
      AppendFirst(text, first, rest);
    } else {
      SameLabels(host, begin, i);
      TextOfFront(host, begin, i + 1, text, k);
    }
  }

  lemma NoLabels(text: Text, labels: seq<Text>)
    ensures AppendLabels(text, labels[..0]) == text
  {
    assert labels[..0] == [];
  }

  lemma LastLabelOnly(host: Text, begin: nat)
    requires begin <= |host|
    ensures |LabelsFrom(host, begin, |host|)| == 1
  {
  }

  lemma FirstLabelEnds(host: Text, begin: nat, i: nat, text: Text, rest: seq<Text>)
    requires begin <= i < |host| && 0 !in host && host[i] == DOT && TextBefore(host, begin, text)
    requires LabelLengths([host[begin..i]] + rest)
    ensures AppendLabel(text, host[begin..i]) == host[..i] && TextBefore(host, i + 1, host[..i]) && LabelLengths(rest)
  {
    AppendSlice(host, begin, i, text);
    assert host[begin..i] in [host[begin..i]] + rest;
    forall l | l in rest
      ensures 1 <= |l| <= 63
    {
      assert l in [host[begin..i]] + rest;
    }
  }

  lemma SameLabels(host: Text, begin: nat, i: nat)
    requires begin <= i < |host| && host[i] != DOT
    ensures LabelsFrom(host, begin, i) == LabelsFrom(host, begin, i + 1)
    ensures Spans(host, begin, i) == Spans(host, begin, i + 1)
  {
  }

  lemma NextLabels(host: Text, begin: nat, i: nat, k: nat)
    requires begin <= i < |host| && host[i] == DOT && k > 0
    requires k < |LabelsFrom(host, begin, i)| && k < |Spans(host, begin, i)|
    ensures k - 1 < |LabelsFrom(host, i + 1, i + 1)| && k - 1 < |Spans(host, i + 1, i + 1)|
    ensures LabelsFrom(host, begin, i)[..k] == [host[begin..i]] + LabelsFrom(host, i + 1, i + 1)[..k - 1]
    ensures Spans(host, begin, i)[k] == Spans(host, i + 1, i + 1)[k - 1]
  {
  }

  lemma {:induction false} FirstStart(host: Text, begin: nat, i: nat)
    requires begin <= i <= |host|
    ensures Spans(host, begin, i) != [] && Spans(host, begin, i)[0].0 == begin
    decreases |host| - i
  {
    OuterSpans(host, begin, i);
  }

  lemma AppendFirst(text: Text, first: Text, rest: seq<Text>)
    ensures AppendLabels(text, [first] + rest) == AppendLabels(AppendLabel(text, first), rest)
  {
    assert ([first] + rest)[1..] == rest;
  }

  /** A label of proper length that is not kept is written with other bytes. */
  lemma ReplacedPiece(name: Text, span: (nat, nat)) returns (d: Text)
    requires Proper(span) && span.1 <= |CString(name)| && InOneBlock(span) && !Kept(CString(name), span)
    ensures |d| == span.1 - span.0 && d != CString(name)[span.0..span.1] && 0 !in d
    ensures Piece(name + [0], Wrap(span)) == Got([|d| % 256] + d)
  {
    hide StrLen, Piece, Wrap, InOneBlock;
    BlockPiece(name, span);
    CStringIsClean(name);
    var first := span.0 % 256;
    d := CString(name)[first..first + (span.1 - span.0)];
  }

  lemma ReplacedWritten(name: Text, j: nat) returns (d: Text)
    requires !LeavesString(name) && SoundUpTo(CString(name), j) && j < |Spans(CString(name), 0, 0)|
    requires var span := Spans(CString(name), 0, 0)[j];
             Proper(span) && InOneBlock(span) && !Kept(CString(name), span)
    ensures j < |HostLabels(CString(name))| && LabelLengths(HostLabels(CString(name))[..j])
    ensures |d| == |HostLabels(CString(name))[j]| && 1 <= |d| <= 63 && d != HostLabels(CString(name))[j] && 0 !in d
    ensures EncodeLabels(HostLabels(CString(name))[..j]) + ([|d| % 256] + d) <= Written(name)
  {
    hide Written, LeavesString, LabelsFrom, Spans, StrLen, EncodeLabels, Sound, Piece, LabelLengths, Wrap, Kept,
         InOneBlock;
    SpanIsLabel(CString(name), j);
    d := ReplacedPiece(name, Spans(CString(name), 0, 0)[j]);
    var rest := WrittenBefore(name, j);
    PrefixBehind(EncodeLabels(HostLabels(CString(name))[..j]), [|d| % 256] + d, rest);
  }

  /** The text of a label that differs from the host's own. */
  lemma OtherText(host: Text, j: nat, d: Text, text: Text)
    requires 0 !in host && j < |HostLabels(host)| == |Spans(host, 0, 0)| && LabelLengths(HostLabels(host)[..j])
    requires |d| == |HostLabels(host)[j]| && d != HostLabels(host)[j] && 0 !in d && Spans(host, 0, 0)[j].0 > 0
    requires AppendLabel(AppendLabels([], HostLabels(host)[..j]), d) <= text
    ensures text != host
  {
    hide LabelsFrom, Spans, StrLen, AppendLabels, LabelLengths;
    var front, span := AppendLabels([], HostLabels(host)[..j]), Spans(host, 0, 0)[j];
    TextOfFront(host, 0, 0, [], j);
    SpanIsLabel(host, j);
    CStringWhole(d);
    if text == host {
      PrefixShows(host, front, d, span.0);
    }
  }

  lemma PrefixShows(host: Text, front: Text, d: Text, from: nat)
    requires front + [DOT] + d <= host && from == |front| + 1
    ensures host[from..from + |d|] == d
  {
    assert (front + [DOT] + d)[from..] == d;
    assert host[..from + |d|] == front + [DOT] + d;
  }

  /** A label whose bytes were replaced is read with the bytes that replaced them. */
  lemma ReplacedLabelShows(mem: seq<byte>, size: nat, begin: nat, name: Text, j: nat)
    requires !LeavesString(name) && HoldsAt(mem, begin, Written(name))
    requires SoundUpTo(CString(name), j) && j < |Spans(CString(name), 0, 0)|
    requires var span := Spans(CString(name), 0, 0)[j];
             Proper(span) && InOneBlock(span) && !Kept(CString(name), span)
    ensures var r := ParseName(mem, size, begin, |CString(name)| + 2, 0, []); r.Got? ==> r.value.text != CString(name)
  {
    hide ParseFrames, Written, LeavesString, LabelsFrom, Spans, StrLen, EncodeLabels, HoldsAt, Sound, LabelLengths,
         AppendLabels, AppendLabel, SoundUpTo, InOneBlock;
    var host, maxParse := CString(name), |CString(name)| + 2;
    var d := ReplacedWritten(name, j);
    var front := HostLabels(host)[..j];
    var at, text := |EncodeLabels(front)|, AppendLabels([], front);
    HoldsFront(mem, begin, EncodeLabels(front) + ([|d| % 256] + d), Written(name));
    HoldsParts(mem, begin, EncodeLabels(front), [|d| % 256] + d);
    RoomFor(host, j);
    ReadLabels(mem, size, begin, maxParse, 0, 0, [], front, at);
    LabelTurn(mem, size, begin, maxParse, 0, at, text, d, at + 1 + |d|);
    NotEmptyText(text, d);
    FramesAppend(mem, size, begin, maxParse, 0, at + 1 + |d|, AppendLabel(text, d));
    var r := ParseName(mem, size, begin, maxParse, 0, []);
    if r.Got? {
      CStringIsClean(name);
      SpanIsLabel(host, j);
      KeptAtStart(host, Spans(host, 0, 0)[j]);
      OtherText(host, j, d, r.value.text);
    }
  }

  lemma NotEmptyText(text: Text, d: Text)
    requires d != [] && 0 !in d
    ensures AppendLabel(text, d) != []
  {
    CStringWhole(d);
  }

  lemma KeptAtStart(host: Text, span: (nat, nat))
    requires Proper(span) && span.1 <= |host| && !Kept(host, span)
    ensures span.0 > 0
  {
  }

  lemma RoomFor(host: Text, j: nat)
    requires j < |HostLabels(host)|
    ensures |EncodeLabels(HostLabels(host)[..j])| + 1 + |HostLabels(host)[j]| <= |host| + 1
  {
    hide EncodeLabels, LabelsFrom;
    EncodedLength(host, 0, 0);
    EncodeNext(HostLabels(host), j);
  }

  lemma FirstUnsound(host: Text) returns (j: nat)
    requires !SoundUpTo(host, |Spans(host, 0, 0)|)
    ensures SoundUpTo(host, j) && j < |Spans(host, 0, 0)| && !Sound(host, Spans(host, 0, 0)[j])
  {
    hide Sound, Spans;
    j := 0;
    while j < |Spans(host, 0, 0)| && Sound(host, Spans(host, 0, 0)[j])
      invariant SoundUpTo(host, j)
    {
      j := j + 1;
    }
  }

  /** Every label is sound exactly when all have 1 to 63 bytes and all are kept. */
  lemma AllSoundIff(host: Text)
    requires BlocksRespected(host)
    ensures SoundUpTo(host, |Spans(host, 0, 0)|) <==> LabelLengths(HostLabels(host)) && AllKept(host)
  {
    hide Spans, LabelsFrom, InOneBlock, Kept;
    SpansAreLabels(host, 0, 0);
    var spans, labels := Spans(host, 0, 0), HostLabels(host);
    forall k | 0 <= k < |spans|
      ensures |labels[k]| == spans[k].1 - spans[k].0 && labels[k] in labels
    {
    }
  }

  lemma WholeIsRead(mem: seq<byte>, size: nat, begin: nat, name: Text)
    requires !LeavesString(name) && HoldsAt(mem, begin, Written(name))
    requires SoundUpTo(CString(name), |Spans(CString(name), 0, 0)|)
    ensures var host := CString(name);
            ParseName(mem, size, begin, |host| + 2, 0, []) == Got(Name(|host| + 2, host))
  {
    hide ParseFrames, Written, LeavesString, LabelsFrom, Spans, StrLen, EncodeLabels, HoldsAt, Sound, Piece, Wrap,
         AppendLabels;
    var host := CString(name);
    var labels := HostLabels(host);
    CStringIsClean(name);
    var rest := WrittenBefore(name, |Spans(host, 0, 0)|);
    assert labels[..|labels|] == labels;
    EncodedLength(host, 0, 0);
    ReadSpelledName(mem, size, begin, |host| + 2, 0, labels);
    AppendHostLabels(host, 0, 0, []);
  }

  /**
   * Over all names, of any length, for which `generate` stays within the string and no label of proper length reaches
   * across a multiple of 256: what it wrote is read back if and only if every label has 1 to 63 bytes and equals the
   * bytes at its positions modulo 256.
   */
  lemma WrappedRoundTripIff(mem: seq<byte>, size: nat, begin: nat, name: Text)
    requires !LeavesString(name) && BlocksRespected(CString(name)) && HoldsAt(mem, begin, Written(name))
    ensures var host := CString(name);
            ParseName(mem, size, begin, |host| + 2, 0, []) == Got(Name(|host| + 2, host)) <==>
            LabelLengths(HostLabels(host)) && AllKept(host)
  {
    hide ParseName, Written, LeavesString, StrLen, Spans, HoldsAt, Kept, InOneBlock, LabelsFrom, LabelLengths, AllKept;
    var host := CString(name);
    AllSoundIff(host);
    if !SoundUpTo(host, |Spans(host, 0, 0)|) {
      var j := FirstUnsound(host);
      var span := Spans(host, 0, 0)[j];
      SpanIsLabel(host, j);
      if span.1 - span.0 >= 64 {
        LongRun(host, j);
        ReadRunsAreShort(mem, size, begin, |host| + 2, 0, []);
      } else if span.0 == span.1 {
        EmptyLabelStops(mem, size, begin, name, j);
      } else {
        ReplacedLabelShows(mem, size, begin, name, j);
      }
    } else {
      WholeIsRead(mem, size, begin, name);
    }
  }

  /** In hosts of up to 256 bytes every label is kept and none reaches across. */
  lemma ShortHostsAreKept(host: Text)
    requires |host| <= 256
    ensures BlocksRespected(host) && AllKept(host)
  {
    hide Spans, LabelsFrom;
    SpansAreLabels(host, 0, 0);
  }

  /**
   * Over all names of up to 256 bytes for which `generate` stays within the string: what it wrote is read back if and
   * only if every label has 1 to 63 bytes.
   */
  lemma RoundTripIff(mem: seq<byte>, size: nat, begin: nat, name: Text)
    requires |CString(name)| <= 256 && !LeavesString(name) && HoldsAt(mem, begin, Written(name))
    ensures var host := CString(name);
            ParseName(mem, size, begin, |host| + 2, 0, []) == Got(Name(|host| + 2, host)) <==>
            LabelLengths(HostLabels(host))
  {
    ShortHostsAreKept(CString(name));
    hide ParseName, Written, LeavesString, StrLen, HoldsAt, AllKept, BlocksRespected, LabelLengths, HostLabels;
    WrappedRoundTripIff(mem, size, begin, name);
  }

  lemma HoldsFront(mem: seq<byte>, at: nat, front: seq<byte>, bs: seq<byte>)
    requires HoldsAt(mem, at, bs) && front <= bs
    ensures HoldsAt(mem, at, front)
  {
    assert bs == front + bs[|front|..];
    HoldsParts(mem, at, front, bs[|front|..]);
  }

  /** A doubled dot: "a..b" is written whole and read back as "a". */
  lemma DoubledDot()
    ensures var mem: seq<byte> := [1, 97, 0, 1, 98, 0];
            Encoding([97, 46, 46, 98]) == Got(mem) && ParseName(mem, 6, 0, 6, 0, []) == Got(Name(3, [97]))
  {
    var name: Text := [97, DOT, DOT, 98];
    var labels: seq<Text> := [[97], [], [98]];
    CStringWhole(name);
    LabelsOfDoubledDot();
    EncodingOfFitting(name);
    assert EncodeLabels(labels[2..]) == [1, 98] + EncodeLabels(labels[3..]);
    assert EncodeLabels(labels[1..]) == [0] + EncodeLabels(labels[2..]) by {
      assert labels[1..][1..] == labels[2..];
    }
    assert EncodeLabels(labels) == [1, 97] + EncodeLabels(labels[1..]);
    var mem: seq<byte> := EncodeName(labels);
    assert mem == [1, 97, 0, 1, 98, 0];
    var front := labels[..1];
    assert front[1..] == [];
    assert EncodeName(front) == [1, 97, 0] == mem[0..3];
    ReadSpelledName(mem, 6, 0, 6, 0, front);
    CStringWhole([97]);
    assert AppendLabels([], front) == AppendLabels(AppendLabel([], front[0]), front[1..]);
  }

  lemma LabelsOfDoubledDot()
    ensures HostLabels([97, DOT, DOT, 98]) == [[97], [], [98]]
  {
    var name: Text := [97, DOT, DOT, 98];
    assert name[3..4] == [98] && name[2..2] == [] && name[0..1] == [97];
    assert LabelsFrom(name, 3, 4) == [name[3..4]];
    assert LabelsFrom(name, 2, 2) == [name[2..2]] + LabelsFrom(name, 3, 3);
    assert LabelsFrom(name, 0, 1) == [name[0..1]] + LabelsFrom(name, 2, 2);
  }

  /** A host with a label of 64 bytes or more has 64 bytes in a row without a dot. */
  lemma LongRun(host: Text, j: nat)
    requires j < |HostLabels(host)| && |HostLabels(host)[j]| >= 64
    ensures !ShortRuns(host)
  {
    var l := HostLabels(host)[j];
    LabelsFromShape(host, 0, 0);
    var b := LabelPlace(host, 0, 0, j);
    assert l in HostLabels(host);
    assert host[b..b + 64] == l[..64];
    assert !DotWithin(host, b);
  }

  /** Where a label stands in its host. */
  lemma {:induction false} LabelPlace(host: Text, begin: nat, i: nat, j: nat) returns (b: nat)
    requires begin <= i <= |host| && j < |LabelsFrom(host, begin, i)|
    ensures var l := LabelsFrom(host, begin, i)[j]; b + |l| <= |host| && host[b..b + |l|] == l
    decreases |host| - i
  {
    if i == |host| || (host[i] == DOT && j == 0) {
      b := begin;
      assert LabelsFrom(host, begin, i)[j] == host[begin..i];
    } else if host[i] == DOT {
      b := LabelPlace(host, i + 1, i + 1, j - 1);
      assert LabelsFrom(host, begin, i)[j] == LabelsFrom(host, i + 1, i + 1)[j - 1];
    } else {
      b := LabelPlace(host, begin, i + 1, j);
    }
  }

  /** A label that reaches across a multiple of 256 is written as its length alone, without its bytes. */
  lemma CrossingPiece(text: Text, span: (nat, nat))
    requires Proper(span) && !InOneBlock(span)
    ensures Piece(text, Wrap(span)) == Got([(span.1 - span.0) % 256])
  {
    var first: int, last: int := Wrap(span).0, Wrap(span).1;
    assert span.0 / 256 + 1 == (span.1 as int - 1) / 256;
    assert last - first + 1 == span.1 - span.0 - 256;
  }

  // ----- Frames that end a name -----

  /** What one turn returns at a byte that is no frame, at a label that does not fit, and behind the memory. */
  lemma EndingFrames(mem: seq<byte>, size: nat, begin: nat, maxParse: nat, depth: nat, at: nat, text: Text)
    requires depth <= MAX_DEPTH && at < maxParse
    ensures var r := ParseFrames(mem, size, begin, maxParse, depth, at, text);
            (begin + at >= |mem| ==> r == Overrun) &&
            (begin + at < |mem| ==>
              var frame := mem[begin + at];
              (64 <= frame < 192 ==> r == Got(Name(at, text))) &&
              (frame == 0 ==> r == Got(Name(at + 1, text))) &&
              (0 < frame < 64 && at + 1 + frame > maxParse ==> r == Got(Name(0, text))) &&
              (0 < frame < 64 && at + 1 + frame <= maxParse && begin + at + 1 + frame > |mem| ==> r == Overrun) &&
              (frame >= 192 && begin + at + 1 == |mem| ==> r == Overrun))
  {
    hide ParseFrames, AppendLabel, WrappedMinus;
    OneTurn(mem, size, begin, maxParse, depth, at, text);
  }

  /** Inside a label the bytes up to a NUL count. */
  lemma NulInLabel()
    ensures ParseName([3, 97, 0, 98, 0], 5, 0, 5, 0, []) == Got(Name(5, [97]))
  {
    hide ParseFrames;
    var labels: seq<Text> := [[97, 0, 98]];
    var mem: seq<byte> := [3, 97, 0, 98, 0];
    assert labels[1..] == [];
    assert EncodeLabels(labels) == [3, 97, 0, 98] + EncodeLabels(labels[1..]);
    assert mem[0..5] == EncodeName(labels);
    ReadSpelledName(mem, 5, 0, 5, 0, labels);
    CStringIs([97], [98]);
    assert [97] + [0] + [98] == labels[0];
    assert AppendLabels([], labels) == AppendLabels(AppendLabel([], labels[0]), labels[1..]);
  }

  // ----- Compression pointers -----

  /** A pointer to the place where the name itself starts ends the name with what was read so far. */
  lemma SelfPointer(mem: seq<byte>, size: nat, begin: nat, maxParse: nat, depth: nat, at: nat, text: Text)
    requires depth <= MAX_DEPTH && at < maxParse && begin + at + 2 <= |mem| && mem[begin + at] >= 192
    requires PointerAt(mem, begin + at) == begin
    ensures ParseFrames(mem, size, begin, maxParse, depth, at, text) == Got(Name(at + 2, text))
  {
    hide ParseFrames, AppendLabel, WrappedMinus;
    OneTurn(mem, size, begin, maxParse, depth, at, text);
  }

  /** A pointer that leads to no name, or out of memory, does so for the name it ends, whatever was read before. */
  lemma FailingPointer(mem: seq<byte>, size: nat, begin: nat, maxParse: nat, depth: nat, at: nat, text: Text)
    requires size < TWO_TO_THE_64 && depth <= MAX_DEPTH && at < maxParse && begin + at + 2 <= |mem|
    requires mem[begin + at] >= 192 && PointerAt(mem, begin + at) != begin && PointerAt(mem, begin + at) <= size
    ensures var pos := PointerAt(mem, begin + at);
            var inner := ParseName(mem, size, pos, size - pos, depth + 1, []);
            var r := ParseFrames(mem, size, begin, maxParse, depth, at, text);
            (inner.Overrun? ==> r == Overrun) && (inner.Got? && inner.value.consumed == 0 ==> r == Got(Name(0, text)))
  {
    hide ParseFrames, AppendLabel;
    OneTurn(mem, size, begin, maxParse, depth, at, text);
    assert FrameTurn(mem, begin, maxParse, at, text) == Jump(PointerAt(mem, begin + at));
  }

  /** A lone pointer at `p`, inside the declared size, to another place. */
  predicate PointsTo(mem: seq<byte>, size: nat, p: nat, target: nat) {
    p + 2 <= |mem| && p < size && mem[p] >= 192 && target == PointerAt(mem, p) && target != p
  }

  /** The offset that the two bytes at `p` hold. */
  function PointerAt(mem: seq<byte>, p: nat): nat
    requires p + 2 <= |mem|
  {
    (mem[p] as int) % 64 * 256 + mem[p + 1]
  }

  /** A chain of `k` lone pointers that leads from `p` to `target`. */
  predicate Chain(mem: seq<byte>, size: nat, p: nat, target: nat, k: nat)
    decreases k
  {
    if k == 0 then p == target
    else
      p + 2 <= |mem| && PointsTo(mem, size, p, PointerAt(mem, p)) &&
      Chain(mem, size, PointerAt(mem, p), target, k - 1)
  }

  lemma LonePointer(mem: seq<byte>, size: nat, p: nat, maxParse: nat, depth: nat)
    requires depth <= MAX_DEPTH && maxParse > 0 && p + 2 <= |mem| && PointsTo(mem, size, p, PointerAt(mem, p))
    ensures var pos := PointerAt(mem, p);
            ParseName(mem, size, p, maxParse, depth, []) ==
            match ParseName(mem, size, pos, WrappedMinus(TWO_TO_THE_64, size, pos), depth + 1, [])
            case Overrun => Overrun
            case Got(inner) => if inner.consumed == 0 then Got(Name(0, [])) else Got(Name(2, inner.text))
  {
    hide ParseFrames, WrappedMinus;
    OneTurn(mem, size, p, maxParse, depth, 0, []);
    assert FrameTurn(mem, p, maxParse, 0, []) == Jump(PointerAt(mem, p));
  }

  /** Reading through a chain of pointers met at `depth`. */
  lemma {:induction false} ReadChain(mem: seq<byte>, size: nat, p: nat, target: nat, k: nat, maxParse: nat, depth: nat,
                                     labels: seq<Text>)
    requires size < TWO_TO_THE_64 && depth <= MAX_DEPTH && LabelLengths(labels)
    requires Chain(mem, size, p, target, k) && target + |EncodeName(labels)| <= size
    requires HoldsAt(mem, target, EncodeName(labels))
    requires if k == 0 then |EncodeName(labels)| <= maxParse else maxParse > 0
    ensures ParseName(mem, size, p, maxParse, depth, []) ==
            if depth + k > MAX_DEPTH then Got(Name(0, []))
            else Got(Name(if k == 0 then |EncodeName(labels)| else 2, AppendLabels([], labels)))
    decreases k
  {
    if k == 0 {
      ReadSpelledName(mem, size, p, maxParse, depth, labels);
    } else {
      hide ParseFrames;
      LonePointer(mem, size, p, maxParse, depth);
      var pos := PointerAt(mem, p);
      if depth < MAX_DEPTH {
        ReadChain(mem, size, pos, target, k - 1, WrappedMinus(TWO_TO_THE_64, size, pos), depth + 1, labels);
      }
    }
  }

  /** A chain of lone pointers to a spelled-out name yields the name and two bytes exactly when it has at most 20. */
  lemma ChainLimit(mem: seq<byte>, size: nat, p: nat, target: nat, k: nat, maxParse: nat, labels: seq<Text>)
    requires size < TWO_TO_THE_64 && LabelLengths(labels) && k >= 1 && maxParse > 0
    requires Chain(mem, size, p, target, k) && target + |EncodeName(labels)| <= size
    requires HoldsAt(mem, target, EncodeName(labels))
    ensures ParseName(mem, size, p, maxParse, 0, []) == Got(Name(2, AppendLabels([], labels))) <==> k <= 20
    ensures k > 20 ==> ParseName(mem, size, p, maxParse, 0, []) == Got(Name(0, []))
  {
    ReadChain(mem, size, p, target, k, maxParse, 0, labels);
  }

  /** At `p` stands a lone pointer to one of `places`. */
  predicate StaysWithin(mem: seq<byte>, size: nat, places: set<nat>, p: nat) {
    p + 2 <= |mem| && PointsTo(mem, size, p, PointerAt(mem, p)) && PointerAt(mem, p) in places
  }

  /** Lone pointers that never leave a set of offsets. */
  ghost predicate Closed(mem: seq<byte>, size: nat, places: set<nat>) {
    forall p {:trigger StaysWithin(mem, size, places, p)} :: p in places ==> StaysWithin(mem, size, places, p)
  }

  /** Lone pointers that only lead to each other, in particular every cycle of two or more, read as failure. */
  lemma {:induction false} PointerCycle(mem: seq<byte>, size: nat, places: set<nat>, p: nat, maxParse: nat, depth: nat)
    requires size < TWO_TO_THE_64 && depth <= MAX_DEPTH && maxParse > 0 && p in places && Closed(mem, size, places)
    ensures ParseName(mem, size, p, maxParse, depth, []) == Got(Name(0, []))
    decreases MAX_DEPTH - depth
  {
    hide ParseFrames;
    assert StaysWithin(mem, size, places, p);
    LonePointer(mem, size, p, maxParse, depth);
    var pos := PointerAt(mem, p);
    assert StaysWithin(mem, size, places, pos);
    if depth < MAX_DEPTH {
      PointerCycle(mem, size, places, pos, WrappedMinus(TWO_TO_THE_64, size, pos), depth + 1);
    }
  }

  /** The smallest cycle: two pointers to each other. */
  lemma SmallestCycle(depth: nat)
    requires depth <= MAX_DEPTH
    ensures ParseName([192, 2, 192, 0], 4, 0, 4, depth, []) == Got(Name(0, []))
  {
    hide ParseName;
    var mem: seq<byte> := [192, 2, 192, 0];
    assert StaysWithin(mem, 4, {0, 2}, 0) && StaysWithin(mem, 4, {0, 2}, 2);
    PointerCycle(mem, 4, {0, 2}, 0, 4, depth);
  }

  /** A pointer past the declared end wraps the count of bytes left, so that a name in the memory behind it is read. */
  lemma PointerPastEnd(mem: seq<byte>, size: nat, begin: nat, maxParse: nat, depth: nat, labels: seq<Text>)
    requires depth < MAX_DEPTH && maxParse > 0 && begin + 2 <= |mem| && mem[begin] >= 192 && LabelLengths(labels)
    requires var pos := PointerAt(mem, begin);
             pos != begin && pos > size && HoldsAt(mem, pos, EncodeName(labels)) &&
             |EncodeName(labels)| <= 0x1_0000_0000_0000_0000 + size - pos
    ensures ParseName(mem, size, begin, maxParse, depth, []) == Got(Name(2, AppendLabels([], labels)))
  {
    hide ParseFrames;
    var pos := PointerAt(mem, begin);
    OneTurn(mem, size, begin, maxParse, depth, 0, []);
    assert FrameTurn(mem, begin, maxParse, 0, []) == Jump(pos);
    ReadSpelledName(mem, size, pos, WrappedMinus(TWO_TO_THE_64, size, pos), depth + 1, labels);
  }

  /** What follows the pointer at `at` when the text read before it is not empty. */
  lemma PointerAfterLabels(mem: seq<byte>, size: nat, begin: nat, maxParse: nat, depth: nat, at: nat, text: Text,
                           inner: Name)
    requires depth <= MAX_DEPTH && at < maxParse && begin + at + 2 <= |mem| && mem[begin + at] >= 192
    requires PointerAt(mem, begin + at) != begin && text != [] && inner.consumed != 0
    requires var pos := PointerAt(mem, begin + at);
             ParseName(mem, size, pos, WrappedMinus(TWO_TO_THE_64, size, pos), depth + 1, []) == Got(inner)
    ensures ParseFrames(mem, size, begin, maxParse, depth, at, text) ==
            ParseFrames(mem, size, begin, maxParse, depth, at + 2, text + [DOT] + inner.text)
  {
    hide ParseFrames, WrappedMinus;
    OneTurn(mem, size, begin, maxParse, depth, at, text);
    assert FrameTurn(mem, begin, maxParse, at, text) == Jump(PointerAt(mem, begin + at));
  }

  /**
   * A pointer ends a name (section 4.1.4 of RFC 1035), but `parseRe` goes on after a pointer behind labels. Exactly
   * when no bytes are left, or the next byte is no frame at all, the name has the length it should have.
   */
  lemma PointerBehindLabelsIff(mem: seq<byte>, size: nat, begin: nat, maxParse: nat, at: nat, labels: seq<Text>,
                               inner: Name)
    requires LabelLengths(labels) && at == |EncodeLabels(labels)| < maxParse && AppendLabels([], labels) != []
    requires HoldsAt(mem, begin, EncodeLabels(labels)) && begin + at + 2 <= |mem| && mem[begin + at] >= 192
    requires PointerAt(mem, begin + at) != begin && inner.consumed != 0
    requires var pos := PointerAt(mem, begin + at);
             ParseName(mem, size, pos, WrappedMinus(TWO_TO_THE_64, size, pos), 1, []) == Got(inner)
    ensures var r := ParseName(mem, size, begin, maxParse, 0, []);
            r.Got? && r.value.consumed == at + 2 <==>
            at + 2 >= maxParse || (begin + at + 2 < |mem| && 64 <= mem[begin + at + 2] < 192)
    ensures at + 2 < maxParse && begin + at + 2 < |mem| && mem[begin + at + 2] == 0 ==>
            ParseName(mem, size, begin, maxParse, 0, []).Got? &&
            ParseName(mem, size, begin, maxParse, 0, []).value.consumed == at + 3
  {
    hide ParseFrames;
    var text := AppendLabels([], labels);
    var longer := text + [DOT] + inner.text;
    ReadLabels(mem, size, begin, maxParse, 0, 0, [], labels, at);
    PointerAfterLabels(mem, size, begin, maxParse, 0, at, text, inner);
    FramesProgress(mem, size, begin, maxParse, 0, at + 2, longer);
  }

  /**
   * An owner name "a" and a pointer to "b", in front of the type 0x0001: the zero of the type reads as a label, so
   * the name has 5 bytes, not 4.
   */
  lemma PointerBeforeType()
    ensures ParseName([1, 98, 0, 1, 97, 192, 0, 0, 1], 9, 3, 6, 0, []).Got?
    ensures ParseName([1, 98, 0, 1, 97, 192, 0, 0, 1], 9, 3, 6, 0, []).value.consumed == 5
  {
    hide ParseName, ParseFrames, FrameTurn, CString;
    var mem: seq<byte> := [1, 98, 0, 1, 97, 192, 0, 0, 1];
    var a, b: seq<Text> := [[97]], [[98]];
    assert a[1..] == [] && b[1..] == [];
    assert EncodeLabels(a) == [1, 97] == mem[3..5] && EncodeName(b) == [1, 98, 0] == mem[0..3];
    ReadSpelledName(mem, 9, 0, 9, 1, b);
    CStringWhole([97]);
    assert AppendLabels([], a) == AppendLabels(AppendLabel([], a[0]), a[1..]);
    PointerBehindLabelsIff(mem, 9, 3, 6, 2, a, Name(3, AppendLabels([], b)));
  }

  /** From a non-empty text the loop stops in place exactly at the end or at a byte that is no frame. */
  lemma FramesProgress(mem: seq<byte>, size: nat, begin: nat, maxParse: nat, depth: nat, at: nat, text: Text)
    requires depth <= MAX_DEPTH && text != [] && 0 < at <= maxParse + 1
    ensures var r := ParseFrames(mem, size, begin, maxParse, depth, at, text);
            r.Got? && r.value.consumed == at <==>
            at >= maxParse || (begin + at < |mem| && 64 <= mem[begin + at] < 192)
    ensures at < maxParse && begin + at < |mem| && mem[begin + at] == 0 ==>
            ParseFrames(mem, size, begin, maxParse, depth, at, text) == Got(Name(at + 1, text))
  {
    hide ParseFrames, WrappedMinus, AppendLabel;
    OneTurn(mem, size, begin, maxParse, depth, at, text);
    if at < maxParse {
      match FrameTurn(mem, begin, maxParse, at, text)
      case Stop(_) =>
      case Label(end) =>
        FramesBound(mem, size, begin, maxParse, depth, end, AppendLabel(text, mem[begin + at + 1..begin + end]));
      case Jump(pos) =>
        var inner := ParseName(mem, size, pos, WrappedMinus(TWO_TO_THE_64, size, pos), depth + 1, []);
        if inner.Got? && inner.value.consumed != 0 {
          FramesBound(mem, size, begin, maxParse, depth, at + 2, text + [DOT] + inner.value.text);
        }
    }
  }
}
