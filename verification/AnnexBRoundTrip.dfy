// Joining NAL units behind start codes and splitting them again: exactly which
// lists of NAL units come back unchanged.
module AnnexBRoundTrip {
  import opened Bytes
  import opened AnnexB

  // One NAL unit behind a four-byte or a three-byte start code.
  datatype Framed = Framed(longCode: bool, nal: seq<byte>)

  function Code(u: Framed): (c: seq<byte>) {
    if u.longCode then [0, 0, 0, 1] else [0, 0, 1]
  }

  function Join(us: seq<Framed>): (b: seq<byte>)
    ensures us != [] ==> |b| >= 3 + |us[0].nal|
  {
    if us == [] then [] else Code(us[0]) + us[0].nal + Join(us[1..])
  }

  function Nals(us: seq<Framed>): seq<seq<byte>> {
    seq(|us|, i requires 0 <= i < |us| => us[i].nal)
  }

  // What a list must satisfy to survive: no empty unit, no start code inside a unit, and
  // no unit that ends in 00 right before a three-byte start code.
  predicate WellFramed(us: seq<Framed>) {
    us == [] ||
    (HeadWellFramed(us) && WellFramed(us[1..]))
  }

  predicate HeadWellFramed(us: seq<Framed>)
    requires us != []
  {
    var n := us[0].nal;
    n != [] && !ContainsStartCode(n) && (n[|n| - 1] == 0 && |us| > 1 ==> us[1].longCode)
  }

  // The byte slices cut out from position `i` on.
  function SlicesFrom(b: seq<byte>, i: nat): seq<seq<byte>>
    requires i <= |b|
  {
    SlicesOf(b, SplitSpans(b, i))
  }

  lemma SlicesOfConcat(b: seq<byte>, xs: seq<Span>, ys: seq<Span>)
    ensures SlicesOf(b, xs + ys) == SlicesOf(b, xs) + SlicesOf(b, ys)
  {
  }

  lemma SlicesFromTurn(b: seq<byte>, i: nat)
    requires i <= |b|
    ensures var s := NextStart(b, i);
            var p := s + StartCodeSize(b, s);
            SlicesFrom(b, i) ==
            if s == |b| || p >= |b| then []
            else
              var e := NextStart(b, p);
              (if e > p then [b[p..e]] else []) + SlicesFrom(b, e)
  {
    hide StartCodeSize, NextStart, SplitSpans;
    var s := NextStart(b, i);
    var p := s + StartCodeSize(b, s);
    if s < |b| && p < |b| {
      var e := NextStart(b, p);
      SplitTurn(b, i, p, e, []);
      var head: seq<Span> := if e > p then [] + [Span(p, e - p)] else [];
      assert [] + SplitSpans(b, i) == SplitSpans(b, i);
      assert SplitSpans(b, i) == head + SplitSpans(b, e);
      SlicesOfConcat(b, head, SplitSpans(b, e));
      assert e > p ==> Slice(b, Span(p, e - p)) == b[p..e];
      assert SlicesOf(b, head) == if e > p then [b[p..e]] else [];
    } else {
      SplitEnds(b, i);
    }
  }

  // ---------------------------------------------------------------------------
  // Splitting does not look back
  // ---------------------------------------------------------------------------

  lemma {:induction false} NextStartShift(pre: seq<byte>, rest: seq<byte>, i: nat)
    requires i <= |rest|
    ensures NextStart(pre + rest, |pre| + i) == |pre| + NextStart(rest, i)
    decreases |rest| - i
  {
    assert StartCodeSize(pre + rest, |pre| + i) == StartCodeSize(rest, i);
    if i < |rest| && StartCodeSize(rest, i) == 0 {
      NextStartShift(pre, rest, i + 1);
    }
  }

  lemma CodeShift(pre: seq<byte>, rest: seq<byte>, i: nat)
    ensures StartCodeSize(pre + rest, |pre| + i) == StartCodeSize(rest, i)
  {
  }

  lemma {:induction false} SlicesShift(pre: seq<byte>, rest: seq<byte>, i: nat)
    requires i <= |rest|
    ensures SlicesFrom(pre + rest, |pre| + i) == SlicesFrom(rest, i)
    decreases |rest| - i
  {
    hide StartCodeSize, NextStart, SlicesFrom;
    var b := pre + rest;
    NextStartShift(pre, rest, i);
    SlicesFromTurn(b, |pre| + i);
    SlicesFromTurn(rest, i);
    var s := NextStart(rest, i);
    CodeShift(pre, rest, s);
    var p := s + StartCodeSize(rest, s);
    if s < |rest| && p < |rest| {
      NextStartShift(pre, rest, p);
      var e := NextStart(rest, p);
      assert b[|pre| + p..|pre| + e] == rest[p..e];
      SlicesShift(pre, rest, e);
    }
  }

  // ---------------------------------------------------------------------------
  // The first unit of a joined list
  // ---------------------------------------------------------------------------

  // The trailing 00 of a unit turns the three-byte code after it into a four-byte one.
  predicate LosesTail(us: seq<Framed>)
    requires us != []
  {
    var n := us[0].nal;
    n != [] && n[|n| - 1] == 0 && |us| > 1 && !us[1].longCode
  }

  // A start code can straddle the end of a unit only by taking its last byte for a leading zero.
  lemma CodeAcrossEnd(n: seq<byte>, rest: seq<byte>, k: nat)
    requires k < |n| && StartCodeSize(n, k) == 0
    requires rest == [] || (|rest| >= 3 && rest[0] == 0 && rest[1] == 0)
    ensures StartCodeSize(n + rest, k) == if k == |n| - 1 && n[k] == 0 && rest != [] && rest[2] == 1 then 4 else 0
  {
    var b := n + rest;
    if k + 4 > |n| && rest != [] {
      assert b[|n|] == 0 && b[|n| + 1] == 0 && b[|n| + 2] == rest[2];
    }
  }

  lemma JoinBeginsWithCode(us: seq<Framed>)
    requires us != []
    ensures |Join(us)| >= 3 && Join(us)[0] == 0 && Join(us)[1] == 0
    ensures Join(us)[2] == 1 <==> !us[0].longCode
  {
    assert Join(us)[..3] == Code(us[0])[..3];
    assert Join(us)[0] == Code(us[0])[0] && Join(us)[1] == Code(us[0])[1] && Join(us)[2] == Code(us[0])[2];
  }

  // Inside a unit without start codes the only code of the joined stream is that stolen one.
  lemma CodesInsideUnit(us: seq<Framed>, k: nat)
    requires us != [] && !ContainsStartCode(us[0].nal) && k < |us[0].nal|
    ensures StartCodeSize(Join(us), |Code(us[0])| + k) ==
            if k == |us[0].nal| - 1 && LosesTail(us) then 4 else 0
  {
    hide StartCodeSize;
    var n, rest := us[0].nal, Join(us[1..]);
    assert Join(us) == Code(us[0]) + (n + rest);
    CodeShift(Code(us[0]), n + rest, k);
    if |us| > 1 {
      JoinBeginsWithCode(us[1..]);
    }
    CodeAcrossEnd(n, rest, k);
  }

  lemma CodeAtBoundary(us: seq<Framed>)
    requires us != []
    ensures Join(us) == Code(us[0]) + us[0].nal + Join(us[1..])
    ensures StartCodeSize(Join(us), 0) == |Code(us[0])|
  {
  }

  // Length of the slice that the first unit becomes.
  function HeadLength(us: seq<Framed>): (n: nat)
    requires us != []
    ensures LosesTail(us) ==> n == |us[0].nal| - 1
  {
    if LosesTail(us) then |us[0].nal| - 1 else |us[0].nal|
  }

  lemma HeadEnds(us: seq<Framed>)
    requires us != [] && us[0].nal != [] && !ContainsStartCode(us[0].nal)
    ensures |Code(us[0])| <= |Join(us)|
    ensures NextStart(Join(us), |Code(us[0])|) == |Code(us[0])| + HeadLength(us)
  {
    hide StartCodeSize, ContainsStartCode, Join;
    CodeAtBoundary(us);
    var b, c, h := Join(us), |Code(us[0])|, HeadLength(us);
    var pre := Code(us[0]) + us[0].nal;
    assert b == pre + Join(us[1..]);
    forall k | c <= k < c + h
      ensures StartCodeSize(b, k) == 0
    {
      CodesInsideUnit(us, k - c);
    }
    if LosesTail(us) {
      CodesInsideUnit(us, h);
    } else if |us| > 1 {
      CodeAtBoundary(us[1..]);
      CodeShift(pre, Join(us[1..]), 0);
    } else {
      JoinNothing(us[1..]);
    }
    NextStartIs(b, c, c + h);
  }

  lemma JoinNothing(us: seq<Framed>)
    requires us == []
    ensures Join(us) == []
  {
  }

  // A four-byte code and the three-byte code inside it lead to the same payload.
  lemma SameFromInnerCode(b: seq<byte>, i: nat)
    requires StartCodeSize(b, i) == 4
    ensures SlicesFrom(b, i) == SlicesFrom(b, i + 1)
  {
    hide StartCodeSize;
    CodeInsideCode(b, i);
  }

  // After the first slice the splitter sees what it would see in the rest of the list.
  lemma RestAfterHead(us: seq<Framed>)
    requires us != [] && us[0].nal != [] && !ContainsStartCode(us[0].nal)
    ensures |Code(us[0])| + HeadLength(us) <= |Join(us)|
    ensures SlicesFrom(Join(us), |Code(us[0])| + HeadLength(us)) == SlicesFrom(Join(us[1..]), 0)
  {
    hide StartCodeSize, NextStart, ContainsStartCode, Join, SlicesFrom;
    CodeAtBoundary(us);
    var pre := Code(us[0]) + us[0].nal;
    SlicesShift(pre, Join(us[1..]), 0);
    if LosesTail(us) {
      CodesInsideUnit(us, HeadLength(us));
      SameFromInnerCode(Join(us), |Code(us[0])| + HeadLength(us));
    }
  }

  // One unit without inner start codes costs its tail byte at most; the rest is split on its own.
  lemma SplitHead(us: seq<Framed>)
    requires us != [] && us[0].nal != [] && !ContainsStartCode(us[0].nal)
    ensures SlicesFrom(Join(us), 0) ==
            (if HeadLength(us) > 0 then [us[0].nal[..HeadLength(us)]] else []) + SlicesFrom(Join(us[1..]), 0)
  {
    hide StartCodeSize, NextStart, ContainsStartCode, Join, SlicesFrom, LosesTail, HeadLength;
    CodeAtBoundary(us);
    HeadEnds(us);
    RestAfterHead(us);
    var b, c, h := Join(us), |Code(us[0])|, HeadLength(us);
    HeadLengthBound(us);
    NextStartHere(b, 0);
    SlicesFromTurn(b, 0);
    assert b[c..c + h] == us[0].nal[..h];
  }

  lemma HeadLengthBound(us: seq<Framed>)
    requires us != []
    ensures HeadLength(us) <= |us[0].nal|
  {
  }

  // ---------------------------------------------------------------------------
  // Round trip
  // ---------------------------------------------------------------------------

  lemma {:induction false} WellFramedSplits(us: seq<Framed>)
    requires WellFramed(us)
    ensures SlicesFrom(Join(us), 0) == Nals(us)
  {
    hide StartCodeSize, ContainsStartCode;
    if us == [] {
    } else {
      SplitHead(us);
      WellFramedSplits(us[1..]);
      assert us[0].nal[..|us[0].nal|] == us[0].nal;
      assert Nals(us) == [us[0].nal] + Nals(us[1..]);
    }
  }

  // Units without inner start codes never split into more slices than there are units.
  lemma {:induction false} SliceCount(us: seq<Framed>)
    requires forall u :: u in us ==> u.nal != [] && !ContainsStartCode(u.nal)
    ensures |SlicesFrom(Join(us), 0)| <= |us|
  {
    hide StartCodeSize, ContainsStartCode;
    if us == [] {
    } else {
      SplitHead(us);
      SliceCount(us[1..]);
    }
  }

  lemma SlicesAreClean(b: seq<byte>)
    ensures forall s :: s in SlicesFrom(b, 0) ==> s != [] && !ContainsStartCode(s)
  {
    forall s | s in SlicesFrom(b, 0)
      ensures s != [] && !ContainsStartCode(s)
    {
      var k :| 0 <= k < |SlicesFrom(b, 0)| && SlicesFrom(b, 0)[k] == s;
      SplitSpansInBounds(b, 0, k);
    }
  }

  lemma {:induction false} SplitsOnlyWellFramed(us: seq<Framed>)
    requires SlicesFrom(Join(us), 0) == Nals(us)
    ensures WellFramed(us)
  {
    hide StartCodeSize, ContainsStartCode, Join, SlicesFrom;
    if us == [] {
    } else {
      SlicesAreClean(Join(us));
      forall u | u in us
        ensures u.nal != [] && !ContainsStartCode(u.nal)
      {
        var k :| 0 <= k < |us| && us[k] == u;
        assert Nals(us)[k] == u.nal;
        assert Nals(us)[k] in SlicesFrom(Join(us), 0);
      }
      assert us[0] in us;
      SplitHead(us);
      var tail := us[1..];
      assert Nals(us) == [us[0].nal] + Nals(tail);
      SliceCount(tail);
      assert SlicesFrom(Join(us), 0)[0] == us[0].nal;
      assert !LosesTail(us);
      assert us[0].nal[..|us[0].nal|] == us[0].nal;
      assert SlicesFrom(Join(tail), 0) == Nals(us)[1..] == Nals(tail);
      SplitsOnlyWellFramed(tail);
    }
  }

  // Joining and splitting is the identity exactly on the well-framed lists.
  lemma RoundTrip(us: seq<Framed>)
    ensures Split(Join(us)) == Nals(us) <==> WellFramed(us)
  {
    if WellFramed(us) {
      WellFramedSplits(us);
    }
    if Split(Join(us)) == Nals(us) {
      assert us != [] ==> |Nals(us)[0]| < |Join(us)|;
      SplitsOnlyWellFramed(us);
    }
  }
}
