/** `split`, `join` and decimal numbers as text. */
module Strings {
  import opened Bytes
  import opened Sequences

  // ----- Searching -----

  /** `sep` occurs at position `i`. */
  predicate Occurs(s: string, sep: string, i: nat) {
    i + |sep| <= |s| && s[i..i + |sep|] == sep
  }

  /** `std::string::find`: the leftmost occurrence of `sep` at or after `from`. */
  function Find(s: string, sep: string, from: nat): (r: Option<nat>)
    ensures r.Some? ==> from <= r.value && Occurs(s, sep, r.value)
    ensures forall i: nat :: from <= i && (r.Some? ==> i < r.value) ==> !Occurs(s, sep, i)
    decreases |s| - from
  {
    if from + |sep| > |s| then None
    else if Occurs(s, sep, from) then Some(from)
    else Find(s, sep, from + 1)
  }

  /** An occurrence that nothing precedes is the one found. */
  lemma FindIs(s: string, sep: string, from: nat, p: nat)
    requires from <= p && Occurs(s, sep, p)
    requires forall i: nat :: from <= i < p ==> !Occurs(s, sep, i)
    ensures Find(s, sep, from) == Some(p)
  {
    var r := Find(s, sep, from);
    assert r.Some? && !(r.value < p) && !(p < r.value);
  }

  // ----- split -----

  /** The pieces of `s` from `lastPos` on, when the search goes on at `pos` and `done` splits have been made. */
  function SplitFrom(s: string, sep: string, lastPos: nat, pos: nat, limit: nat, done: nat): (r: seq<string>)
    requires sep != "" && lastPos <= |s| && lastPos <= pos
    ensures r != []
    decreases |s| - lastPos
  {
    match Find(s, sep, pos)
    case None => [s[lastPos..]]
    case Some(p) =>
      var next := p + |sep|;
      [s[lastPos..p]] +
      (if limit != 0 && done + 1 >= limit then [s[next..]] else SplitFrom(s, sep, next, next, limit, done + 1))
  }

  /** `strutils::split` with its start position and split limit; 0 means no limit. */
  function SplitAt(s: string, sep: string, start: nat, limit: nat): seq<string>
    requires sep != ""
  {
    if s == "" then [] else SplitFrom(s, sep, 0, start, limit, 0)
  }

  function Split(s: string, sep: string): seq<string>
    requires sep != ""
  {
    SplitAt(s, sep, 0, 0)
  }

  method DoSplit(s: string, sep: string, start: nat, limit: nat) returns (result: seq<string>)
    requires sep != ""
    ensures result == SplitAt(s, sep, start, limit)
  {
    hide Occurs, SplitFrom;
    result := [];
    if s != "" {
      var pos, lastPos, count := start, 0, 0;
      ConcatEmpty(SplitFrom(s, sep, 0, start, limit, 0));
      while true
        invariant lastPos <= |s| && lastPos <= pos
        invariant SplitAt(s, sep, start, limit) == result + SplitFrom(s, sep, lastPos, pos, limit, count)
        decreases |s| - lastPos
      {
        var found := Find(s, sep, pos);
        if found.None? {
          SplitEnd(s, sep, lastPos, pos, limit, count);
          break;
        }
        FoundInside(s, sep, found.value);
        var line := s[lastPos..found.value];
        ghost var from, at := lastPos, pos;
        pos := found.value + |sep|;
        lastPos := pos;
        count := count + 1;
        ghost var tail := if limit != 0 && count >= limit then [s[lastPos..]]
                          else SplitFrom(s, sep, lastPos, pos, limit, count);
        SplitStep(s, sep, from, at, limit, count - 1, tail);
        ConcatAssociative(result, [line], tail);
        result := result + [line];
        if limit != 0 && count >= limit {
          break;
        }
      }
      result := result + [s[lastPos..]];
    }
  }

  lemma SplitEnd(s: string, sep: string, lastPos: nat, pos: nat, limit: nat, done: nat)
    requires sep != "" && lastPos <= |s| && lastPos <= pos && Find(s, sep, pos).None?
    ensures SplitFrom(s, sep, lastPos, pos, limit, done) == [s[lastPos..]]
  {
  }

  /** One turn of the splitting loop. */
  lemma SplitStep(s: string, sep: string, lastPos: nat, pos: nat, limit: nat, done: nat, tail: seq<string>)
    requires sep != "" && lastPos <= |s| && lastPos <= pos && Find(s, sep, pos).Some?
    requires var next := Find(s, sep, pos).value + |sep|;
             tail == if limit != 0 && done + 1 >= limit then [s[next..]]
                     else SplitFrom(s, sep, next, next, limit, done + 1)
    ensures SplitFrom(s, sep, lastPos, pos, limit, done) == [s[lastPos..Find(s, sep, pos).value]] + tail
  {
  }

  lemma FoundInside(s: string, sep: string, p: nat)
    requires Occurs(s, sep, p)
    ensures p + |sep| <= |s|
  {
  }

  /** The pieces with the separator between them. */
  function Interleave(pieces: seq<string>, sep: string): string {
    if pieces == [] then "" else if |pieces| == 1 then pieces[0] else pieces[0] + sep + Interleave(pieces[1..], sep)
  }

  lemma {:induction false} RejoinFrom(s: string, sep: string, lastPos: nat, pos: nat, limit: nat, done: nat)
    requires sep != "" && lastPos <= |s| && lastPos <= pos
    ensures Interleave(SplitFrom(s, sep, lastPos, pos, limit, done), sep) == s[lastPos..]
    decreases |s| - lastPos
  {
    hide Occurs;
    var found := Find(s, sep, pos);
    if found.Some? {
      FoundInside(s, sep, found.value);
      var p, next := found.value, found.value + |sep|;
      var last := limit != 0 && done + 1 >= limit;
      var tail := if last then [s[next..]] else SplitFrom(s, sep, next, next, limit, done + 1);
      assert SplitFrom(s, sep, lastPos, pos, limit, done) == [s[lastPos..p]] + tail;
      if !last {
        RejoinFrom(s, sep, next, next, limit, done + 1);
      }
      hide SplitFrom;
      InterleaveCons(s[lastPos..p], tail, sep);
      Cut(s, sep, lastPos, p);
    }
  }

  lemma InterleaveCons(head: string, tail: seq<string>, sep: string)
    requires tail != []
    ensures Interleave([head] + tail, sep) == head + sep + Interleave(tail, sep)
  {
    assert ([head] + tail)[1..] == tail;
  }

  lemma Cut(s: string, sep: string, from: nat, p: nat)
    requires from <= p && Occurs(s, sep, p)
    ensures s[from..] == s[from..p] + sep + s[p + |sep|..]
  {
  }

  /** Whatever the start and the limit, putting the separators back gives the string back. */
  lemma SplitRejoins(s: string, sep: string, start: nat, limit: nat)
    requires sep != ""
    ensures Interleave(SplitAt(s, sep, start, limit), sep) == s
  {
    if s != "" {
      RejoinFrom(s, sep, 0, start, limit, 0);
      assert s[0..] == s;
    }
  }

  ghost predicate Contains(s: string, sep: string) {
    exists i: nat :: Occurs(s, sep, i)
  }

  lemma OccursInPiece(s: string, sep: string, from: nat, to: nat, i: nat)
    requires from <= to <= |s|
    ensures Occurs(s[from..to], sep, i) <==> from + i + |sep| <= to && Occurs(s, sep, from + i)
  {
    var piece, at := s[from..to], from + i;
    if at + |sep| <= to {
      var inPiece, inWhole := piece[i..i + |sep|], s[at..at + |sep|];
      forall k | 0 <= k < |sep|
        ensures inPiece[k] == inWhole[k]
      {
        assert piece[i + k] == s[at + k];
      }
      assert inPiece == inWhole;
    }
  }

  lemma PieceIsClean(s: string, sep: string, from: nat, to: nat)
    requires from <= to <= |s|
    requires forall i: nat :: from <= i && i + |sep| <= to ==> !Occurs(s, sep, i)
    ensures !Contains(s[from..to], sep)
  {
    forall i: nat
      ensures !Occurs(s[from..to], sep, i)
    {
      OccursInPiece(s, sep, from, to, i);
    }
  }

  lemma {:induction false} PiecesAreCleanFrom(s: string, sep: string, lastPos: nat, done: nat)
    requires sep != "" && lastPos <= |s|
    ensures forall piece :: piece in SplitFrom(s, sep, lastPos, lastPos, 0, done) ==> !Contains(piece, sep)
    decreases |s| - lastPos
  {
    var found := Find(s, sep, lastPos);
    if found.Some? {
      PieceIsClean(s, sep, lastPos, found.value);
      PiecesAreCleanFrom(s, sep, found.value + |sep|, done + 1);
    } else {
      PieceIsClean(s, sep, lastPos, |s|);
      assert s[lastPos..|s|] == s[lastPos..];
    }
  }

  /** An unlimited split from the start leaves no separator in any piece. */
  lemma PiecesAreClean(s: string, sep: string)
    requires sep != ""
    ensures forall piece :: piece in Split(s, sep) ==> !Contains(piece, sep)
  {
    if s != "" {
      PiecesAreCleanFrom(s, sep, 0, 0);
    }
  }

  /** From a start position on, the first piece has no separator; before it, separators are passed over. */
  lemma FirstPieceIsClean(s: string, sep: string, start: nat, limit: nat, i: nat)
    requires sep != "" && s != "" && start <= i && i + |sep| <= |SplitAt(s, sep, start, limit)[0]|
    ensures !Occurs(SplitAt(s, sep, start, limit)[0], sep, i)
  {
    var found := Find(s, sep, start);
    var to := if found.Some? then found.value else |s|;
    assert SplitAt(s, sep, start, limit)[0] == s[0..to];
    OccursInPiece(s, sep, 0, to, i);
  }

  /** A limit of `k` splits keeps the first `k` pieces and leaves the rest in one. */
  lemma {:induction false} LimitedFrom(s: string, sep: string, lastPos: nat, pos: nat, limit: nat, done: nat)
    requires sep != "" && lastPos <= |s| && lastPos <= pos && done < limit
    ensures var all, few := SplitFrom(s, sep, lastPos, pos, 0, done), SplitFrom(s, sep, lastPos, pos, limit, done);
            var k := limit - done;
            |few| == (if |all| <= k + 1 then |all| else k + 1) &&
            forall i :: 0 <= i < |few| && i < k ==> few[i] == all[i]
    decreases |s| - lastPos
  {
    hide Occurs;
    var found := Find(s, sep, pos);
    if found.Some? {
      FoundInside(s, sep, found.value);
      var next := found.value + |sep|;
      if done + 1 < limit {
        LimitedFrom(s, sep, next, next, limit, done + 1);
      }
    }
  }

  lemma LimitedSplit(s: string, sep: string, start: nat, limit: nat)
    requires sep != "" && limit > 0
    ensures var all, few := SplitAt(s, sep, start, 0), SplitAt(s, sep, start, limit);
            |few| == (if |all| <= limit + 1 then |all| else limit + 1) &&
            forall i :: 0 <= i < |few| && i < limit ==> few[i] == all[i]
  {
    if s != "" {
      LimitedFrom(s, sep, 0, start, limit, 0);
    }
  }

  // ----- join -----

  /** `join` continued from `result`: no separator is written while the result is empty. */
  function JoinFrom(result: string, pieces: seq<string>, sep: string): string
    decreases |pieces|
  {
    if pieces == [] then result
    else JoinFrom((if result != "" then result + sep else result) + pieces[0], pieces[1..], sep)
  }

  method DoJoin(pieces: seq<string>, sep: string) returns (result: string)
    ensures result == JoinFrom("", pieces, sep)
  {
    result := "";
    for i := 0 to |pieces|
      invariant JoinFrom("", pieces, sep) == JoinFrom(result, pieces[i..], sep)
    {
      assert pieces[i..][1..] == pieces[i + 1..];
      if result != "" {
        result := result + sep;
      }
      result := result + pieces[i];
    }
  }

  lemma {:induction false} JoinNonEmpty(result: string, pieces: seq<string>, sep: string)
    requires result != "" && pieces != []
    ensures JoinFrom(result, pieces, sep) == result + sep + Interleave(pieces, sep)
    decreases |pieces|
  {
    var longer := result + sep + pieces[0];
    if |pieces| > 1 {
      JoinNonEmpty(longer, pieces[1..], sep);
      var rest := Interleave(pieces[1..], sep);
      assert longer + sep + rest == result + sep + (pieces[0] + sep + rest);
    }
  }

  lemma {:induction false} JoinIsNotLonger(pieces: seq<string>, sep: string)
    ensures |JoinFrom("", pieces, sep)| <= |Interleave(pieces, sep)|
  {
    if pieces != [] {
      assert "" + pieces[0] == pieces[0];
      if pieces[0] == "" {
        JoinIsNotLonger(pieces[1..], sep);
      } else if |pieces| > 1 {
        JoinNonEmpty(pieces[0], pieces[1..], sep);
      }
    }
  }

  /** `join` undoes `split` exactly for the strings that do not begin with the separator. */
  lemma JoinUndoesSplitIff(s: string, sep: string)
    requires sep != ""
    ensures JoinFrom("", Split(s, sep), sep) == s <==> !(sep <= s)
  {
    if s != "" {
      var pieces := Split(s, sep);
      SplitRejoins(s, sep, 0, 0);
      var found := Find(s, sep, 0);
      assert "" + pieces[0] == pieces[0];
      assert Occurs(s, sep, 0) <==> sep <= s;
      if sep <= s {
        FindIs(s, sep, 0, 0);
        assert pieces[0] == "";
        JoinIsNotLonger(pieces[1..], sep);
      } else {
        assert found != Some(0);
        assert pieces[0] != "";
        if |pieces| > 1 {
          JoinNonEmpty(pieces[0], pieces[1..], sep);
        }
      }
    }
  }

  /** A leading separator is lost: ",a" comes back as "a". */
  lemma LeadingSeparatorIsLost()
    ensures Split(",a", ",") == ["", "a"] && JoinFrom("", Split(",a", ","), ",") == "a"
  {
    var s, pieces := ",a", ["", "a"];
    FindIs(s, ",", 0, 0);
    assert s[1..2][0] == s[1] == 'a';
    assert Find(s, ",", 1).None?;
    assert s[0..0] == "" && s[1..] == "a";
    assert SplitFrom(s, ",", 0, 0, 0, 0) == pieces;
    assert pieces[1..] == ["a"] && "" + "" == "";
    assert JoinFrom("", pieces, ",") == JoinFrom("", ["a"], ",");
    assert ["a"][1..] == [] && "" + "a" == "a";
  }

  /** Pieces without the one-character separator come back from the text they make. */
  lemma {:induction false} SplitInterleaved(pieces: seq<string>, sep: char, whole: string, lastPos: nat, done: nat)
    requires pieces != [] && forall piece :: piece in pieces ==> sep !in piece
    requires lastPos <= |whole| && whole[lastPos..] == Interleave(pieces, [sep])
    ensures SplitFrom(whole, [sep], lastPos, lastPos, 0, done) == pieces
    decreases |pieces|
  {
    var first := pieces[0];
    assert first in pieces;
    var p := lastPos + |first|;
    var rest := whole[lastPos..];
    assert rest[..|first|] == first;
    forall i: nat | lastPos <= i < p
      ensures !Occurs(whole, [sep], i)
    {
      assert whole[i..i + 1] == [whole[i]] && whole[i] == rest[i - lastPos] == first[i - lastPos];
      assert first[i - lastPos] in first;
    }
    if |pieces| > 1 {
      hide Interleave, Occurs;
      NextPiece(pieces, sep, whole, lastPos);
      FindIs(whole, [sep], lastPos, p);
      SplitInterleaved(pieces[1..], sep, whole, p + 1, done + 1);
      assert pieces == [first] + pieces[1..];
    } else {
      assert whole[lastPos..] == first;
    }
  }

  lemma NextPiece(pieces: seq<string>, sep: char, whole: string, lastPos: nat)
    requires |pieces| > 1 && lastPos <= |whole| && whole[lastPos..] == Interleave(pieces, [sep])
    ensures var p := lastPos + |pieces[0]|;
            Occurs(whole, [sep], p) && whole[lastPos..p] == pieces[0] &&
            whole[p + 1..] == Interleave(pieces[1..], [sep])
  {
    var first, rest, p := pieces[0], whole[lastPos..], lastPos + |pieces[0]|;
    var tail := Interleave(pieces[1..], [sep]);
    assert rest == first + [sep] + tail;
    assert whole[p] == rest[|first|] == sep;
    assert whole[lastPos..p] == rest[..|first|];
    assert whole[p + 1..] == rest[|first| + 1..];
  }

  // ----- Decimal numbers -----

  predicate IsDigit(c: char) {
    '0' <= c <= '9'
  }

  function DigitChar(d: nat): char
    requires d < 10
  {
    ('0' as int + d) as char
  }

  /** `to_string` of an unsigned number. */
  function Decimal(n: nat): (s: string)
    ensures s != "" && forall i :: 0 <= i < |s| ==> IsDigit(s[i])
  {
    if n < 10 then [DigitChar(n)] else Decimal(n / 10) + [DigitChar(n % 10)]
  }

  function DigitsValue(s: string): nat
    requires forall i :: 0 <= i < |s| ==> IsDigit(s[i])
  {
    if s == "" then 0
    else
      assert IsDigit(s[|s| - 1]);
      DigitsValue(s[..|s| - 1]) * 10 + (s[|s| - 1] as int - '0' as int)
  }

  /** No number is written with a leading zero. */
  lemma {:induction false} DecimalShape(n: nat)
    ensures n > 0 ==> Decimal(n)[0] != '0'
    ensures n < 10 <==> |Decimal(n)| == 1
  {
    if n >= 10 {
      DecimalShape(n / 10);
    }
  }

  lemma {:induction false} DecimalRoundTrip(n: nat)
    ensures DigitsValue(Decimal(n)) == n
  {
    var s := Decimal(n);
    if n >= 10 {
      DecimalRoundTrip(n / 10);
      assert s[..|s| - 1] == Decimal(n / 10);
    } else {
      assert s[..0] == "";
    }
  }

  /** The number of digits that `s` begins with. */
  function DigitPrefix(s: string): (n: nat)
    ensures n <= |s| && (forall i :: 0 <= i < n ==> IsDigit(s[i])) && (n < |s| ==> !IsDigit(s[n]))
  {
    if s == "" || !IsDigit(s[0]) then 0 else 1 + DigitPrefix(s[1..])
  }

  lemma {:induction false} DigitPrefixIs(s: string, n: nat)
    requires n <= |s| && (forall i :: 0 <= i < n ==> IsDigit(s[i])) && (n < |s| ==> !IsDigit(s[n]))
    ensures DigitPrefix(s) == n
  {
    if n > 0 {
      DigitPrefixIs(s[1..], n - 1);
    }
  }
}
