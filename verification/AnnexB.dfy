// The Annex-B byte stream (section B.1 of ITU-T H.264): the three scanners that
// the sender and the raw pipeline use, and what they agree on.
module AnnexB {
  import opened Bytes

  // ---------------------------------------------------------------------------
  // Start codes
  // ---------------------------------------------------------------------------

  // Length of the start code at `offset`, or 0 when there is none. The three-byte form is tried first.
  function StartCodeSize(b: seq<byte>, offset: nat): (n: nat)
    ensures n == 0 || n == 3 || n == 4
    ensures n > 0 ==> offset + n <= |b| && b[offset] == 0
  {
    if offset + 3 <= |b| && b[offset] == 0 && b[offset + 1] == 0 && b[offset + 2] == 1 then 3
    else if offset + 4 <= |b| && b[offset] == 0 && b[offset + 1] == 0 && b[offset + 2] == 0 && b[offset + 3] == 1 then 4
    else 0
  }

  // The raw pipeline's own test, which tries the four-byte form first.
  function PipelinePrefixSize(b: seq<byte>, index: nat): (n: nat)
    ensures n == StartCodeSize(b, index)
  {
    if index + 4 <= |b| && b[index] == 0 && b[index + 1] == 0 && b[index + 2] == 0 && b[index + 3] == 1 then 4
    else if index + 3 <= |b| && b[index] == 0 && b[index + 1] == 0 && b[index + 2] == 1 then 3
    else 0
  }

  // First position at or after `i` that holds a start code, or the length of `b`.
  function NextStart(b: seq<byte>, i: nat): (j: nat)
    requires i <= |b|
    ensures i <= j <= |b|
    ensures j < |b| ==> StartCodeSize(b, j) > 0
    decreases |b| - i
  {
    if i == |b| || StartCodeSize(b, i) > 0 then i else NextStart(b, i + 1)
  }

  lemma {:induction false} NothingBeforeNextStart(b: seq<byte>, i: nat, k: nat)
    requires i <= |b| && i <= k < NextStart(b, i)
    ensures StartCodeSize(b, k) == 0
    decreases k - i
  {
    if i == k {
    } else {
      NothingBeforeNextStart(b, i + 1, k);
    }
  }

  // Starting the search later, but not past the start code it finds, finds the same one.
  lemma {:induction false} NextStartFrom(b: seq<byte>, i: nat, j: nat)
    requires i <= |b| && i <= j <= NextStart(b, i)
    ensures NextStart(b, j) == NextStart(b, i)
    decreases j - i
  {
    if i == j {
    } else {
      NextStartFrom(b, i + 1, j);
    }
  }

  // A start code with none between it and `i` is the one found from `i`.
  lemma {:induction false} NextStartIs(b: seq<byte>, i: nat, j: nat)
    requires i <= j <= |b|
    requires j < |b| ==> StartCodeSize(b, j) > 0
    requires forall k :: i <= k < j ==> StartCodeSize(b, k) == 0
    ensures NextStart(b, i) == j
    decreases j - i
  {
    if i == j {
    } else {
      NextStartIs(b, i + 1, j);
    }
  }

  predicate ContainsStartCode(b: seq<byte>) {
    exists k :: 0 <= k < |b| && StartCodeSize(b, k) > 0
  }

  // ---------------------------------------------------------------------------
  // What the scanners compute
  // ---------------------------------------------------------------------------

  datatype Span = Span(offset: nat, size: nat)

  // Spans of the NAL units that the splitter cuts out from position `i` on.
  function SplitSpans(b: seq<byte>, i: nat): (spans: seq<Span>)
    requires i <= |b|
    decreases |b| - i
  {
    var s := NextStart(b, i);
    if s == |b| then []
    else
      var p := s + StartCodeSize(b, s);
      if p >= |b| then []
      else
        var e := NextStart(b, p);
        (if e > p then [Span(p, e - p)] else []) + SplitSpans(b, e)
  }

  // Spans that the access-unit descriptor records from position `i` on: on an empty
  // NAL unit it resumes one byte after the payload offset.
  function ScanSpans(b: seq<byte>, i: nat): (spans: seq<Span>)
    requires i <= |b|
    decreases |b| - i
  {
    var s := NextStart(b, i);
    if s == |b| then []
    else
      var p := s + StartCodeSize(b, s);
      if p >= |b| then []
      else
        var e := NextStart(b, p);
        if e == p then ScanSpans(b, Min(|b|, p + 1))
        else [Span(p, e - p)] + ScanSpans(b, e)
  }

  // The bytes of one span; both scanners only produce non-empty spans inside the stream.
  function Slice(b: seq<byte>, s: Span): seq<byte> {
    if s.offset + s.size <= |b| then b[s.offset..s.offset + s.size] else []
  }

  function SlicesOf(b: seq<byte>, spans: seq<Span>): (slices: seq<seq<byte>>)
    ensures |slices| == |spans|
  {
    seq(|spans|, k requires 0 <= k < |spans| => Slice(b, spans[k]))
  }

  // Every span lies in the stream, is not empty, begins right after a start code and contains none.
  lemma {:induction false} SplitSpansInBounds(b: seq<byte>, i: nat, k: nat)
    requires i <= |b| && k < |SplitSpans(b, i)|
    ensures var s := SplitSpans(b, i)[k];
            && 0 < s.size && i + 3 <= s.offset && s.offset + s.size <= |b|
            && b[s.offset - 3..s.offset] == [0, 0, 1] && !ContainsStartCode(Slice(b, s))
    decreases |b| - i
  {
    hide StartCodeSize, ContainsStartCode, NextStart;
    var s := NextStart(b, i);
    var p := s + StartCodeSize(b, s);
    var e := NextStart(b, p);
    if e == p {
      SplitSpansInBounds(b, e, k);
    } else if k > 0 {
      assert SplitSpans(b, i)[k] == SplitSpans(b, e)[k - 1];
      SplitSpansInBounds(b, e, k - 1);
    } else {
      CodeEnds(b, s);
      NalHasNoStartCode(b, p);
    }
  }

  lemma NalHasNoStartCode(b: seq<byte>, p: nat)
    requires p <= |b|
    ensures !ContainsStartCode(b[p..NextStart(b, p)])
  {
    hide StartCodeSize, ContainsStartCode, NextStart;
    forall j | p <= j < NextStart(b, p) ensures StartCodeSize(b, j) == 0 {
      NothingBeforeNextStart(b, p, j);
    }
    SliceHasNoStartCode(b, p, NextStart(b, p));
  }

  lemma CodeEnds(b: seq<byte>, s: nat)
    requires StartCodeSize(b, s) > 0
    ensures var p := s + StartCodeSize(b, s); b[p - 3..p] == [0, 0, 1]
  {
  }

  lemma SliceHasNoStartCode(b: seq<byte>, p: nat, e: nat)
    requires p <= e <= |b|
    requires forall k :: p <= k < e ==> StartCodeSize(b, k) == 0
    ensures !ContainsStartCode(b[p..e])
  {
    forall k | 0 <= k < |b[p..e]|
      ensures StartCodeSize(b[p..e], k) == 0
    {
      assert StartCodeSize(b, p + k) == 0;
    }
  }

  // The NAL units of a byte stream; a stream that yields none is itself one unit.
  function Split(b: seq<byte>): (nalus: seq<seq<byte>>)
    ensures b != [] ==> nalus != []
  {
    var slices := SlicesOf(b, SplitSpans(b, 0));
    if slices == [] && b != [] then [b] else slices
  }

  // No NAL unit that the splitter yields is empty.
  lemma SplitYieldsNoEmptyNal(b: seq<byte>, k: nat)
    requires k < |Split(b)|
    ensures Split(b)[k] != []
  {
    if SplitSpans(b, 0) != [] {
      SplitSpansInBounds(b, 0, k);
    }
  }

  function NalType(header: byte): (t: nat)
    ensures t < 32
  {
    header % 32
  }

  predicate RecordsType(b: seq<byte>, spans: seq<Span>, t: nat)
  {
    exists s :: s in spans && s.offset < |b| && NalType(b[s.offset]) == t
  }

  // The descriptor's answer for one NAL type, with its no-start-code fallback.
  predicate DescribesType(b: seq<byte>, t: nat)
    requires b != []
  {
    if ScanSpans(b, 0) == [] then NalType(b[0]) == t else RecordsType(b, ScanSpans(b, 0), t)
  }

  // ---------------------------------------------------------------------------
  // The scanners
  // ---------------------------------------------------------------------------

  // The search loop that the splitter and the descriptor each run twice per NAL unit.
  method SkipToStartCode(bytes: seq<byte>, start: nat) returns (i: nat)
    requires start <= |bytes|
    ensures i == NextStart(bytes, start)
  {
    i := start;
    while i < |bytes| && StartCodeSize(bytes, i) == 0
      invariant start <= i <= |bytes|
      invariant NextStart(bytes, start) == NextStart(bytes, i)
    {
      i := i + 1;
    }
  }

  // What one turn of the splitter's loop adds.
  lemma SplitTurn(b: seq<byte>, i: nat, p: nat, e: nat, done: seq<Span>)
    requires i <= |b| && NextStart(b, i) < |b| && p == NextStart(b, i) + StartCodeSize(b, NextStart(b, i)) < |b|
    requires e == NextStart(b, p)
    ensures done + SplitSpans(b, i) ==
            (if e > p then done + [Span(p, e - p)] else done) + SplitSpans(b, e)
  {
    hide StartCodeSize, NextStart;
  }

  lemma SlicesOfAppend(b: seq<byte>, done: seq<Span>, p: nat, e: nat)
    requires p <= e <= |b|
    ensures SlicesOf(b, done + [Span(p, e - p)]) == SlicesOf(b, done) + [b[p..e]]
  {
    assert Slice(b, Span(p, e - p)) == b[p..e];
  }

  // Where the splitter's loop stops, the scan stops too.
  lemma SplitEnds(b: seq<byte>, i: nat)
    requires i <= |b|
    requires NextStart(b, i) < |b| ==> NextStart(b, i) + StartCodeSize(b, NextStart(b, i)) >= |b|
    ensures SplitSpans(b, i) == [] && ScanSpans(b, i) == []
  {
  }

  method SplitAnnexBNalus(bytes: seq<byte>) returns (nalus: seq<seq<byte>>)
    ensures nalus == Split(bytes)
  {
    hide StartCodeSize, SlicesOf, SplitSpans;
    nalus := [];
    var nalStart := 0;
    ghost var done: seq<Span> := [];
    ghost var all := SplitSpans(bytes, 0);
    assert SlicesOf(bytes, done) == [];
    while nalStart < |bytes|
      invariant 0 <= nalStart <= |bytes|
      invariant nalus == SlicesOf(bytes, done)
      invariant all == done + SplitSpans(bytes, nalStart)
      decreases |bytes| - nalStart
    {
      ghost var from := nalStart;
      nalStart := SkipToStartCode(bytes, nalStart);
      if nalStart >= |bytes| {
        SplitEnds(bytes, from);
        break;
      }
      var payloadOffset := nalStart + StartCodeSize(bytes, nalStart);
      if payloadOffset >= |bytes| {
        SplitEnds(bytes, from);
        break;
      }
      var nalEnd := SkipToStartCode(bytes, payloadOffset);
      SplitTurn(bytes, from, payloadOffset, nalEnd, done);
      if nalEnd > payloadOffset {
        SlicesOfAppend(bytes, done, payloadOffset, nalEnd);
        nalus := nalus + [bytes[payloadOffset..nalEnd]];
        done := done + [Span(payloadOffset, nalEnd - payloadOffset)];
      }
      nalStart := nalEnd;
    }
    if all != done {
      SplitEnds(bytes, nalStart);
    }
    if nalus == [] && bytes != [] {
      nalus := nalus + [bytes];
    }
  }

  // The descriptor of one access unit: its spans and the NAL types it flags.
  datatype Descriptor = Descriptor(spans: seq<Span>, hasSps: bool, hasPps: bool, hasIdr: bool, hasNonIdrSlice: bool)

  // What one turn of the descriptor's loop records.
  lemma ScanTurn(b: seq<byte>, i: nat, p: nat, e: nat, done: seq<Span>)
    requires i <= |b| && NextStart(b, i) < |b| && p == NextStart(b, i) + StartCodeSize(b, NextStart(b, i)) < |b|
    requires e == NextStart(b, p)
    ensures e == p ==> ScanSpans(b, i) == ScanSpans(b, p + 1)
    ensures e > p ==> done + ScanSpans(b, i) == done + [Span(p, e - p)] + ScanSpans(b, e)
  {
    hide StartCodeSize, NextStart;
  }

  method InspectAccessUnit(bytes: seq<byte>) returns (d: Descriptor)
    requires bytes != []
    ensures d.spans == if ScanSpans(bytes, 0) == [] then [Span(0, |bytes|)] else ScanSpans(bytes, 0)
    ensures d.hasSps <==> DescribesType(bytes, 7)
    ensures d.hasPps <==> DescribesType(bytes, 8)
    ensures d.hasIdr <==> DescribesType(bytes, 5)
    ensures d.hasNonIdrSlice <==> DescribesType(bytes, 1)
  {
    hide StartCodeSize, ScanSpans, RecordsType;
    d := Descriptor([], false, false, false, false);
    forall t: nat ensures !RecordsType(bytes, d.spans, t) { NothingRecorded(bytes, t); }
    var nalStart := 0;
    ghost var all := ScanSpans(bytes, 0);
    while nalStart < |bytes|
      invariant 0 <= nalStart <= |bytes|
      invariant all == d.spans + ScanSpans(bytes, nalStart)
      invariant FlagsMatch(bytes, d)
      decreases |bytes| - nalStart
    {
      ghost var from := nalStart;
      nalStart := SkipToStartCode(bytes, nalStart);
      if nalStart >= |bytes| {
        SplitEnds(bytes, from);
        break;
      }
      var payloadOffset := nalStart + StartCodeSize(bytes, nalStart);
      if payloadOffset >= |bytes| {
        SplitEnds(bytes, from);
        break;
      }
      var nalEnd := SkipToStartCode(bytes, payloadOffset);
      ScanTurn(bytes, from, payloadOffset, nalEnd, d.spans);
      if nalEnd <= payloadOffset {
        nalStart := Min(|bytes|, payloadOffset + 1);
        continue;
      }
      var nalType := NalType(bytes[payloadOffset]);
      var span := Span(payloadOffset, nalEnd - payloadOffset);
      RecordsTypeAppend(bytes, d.spans, span, 7);
      RecordsTypeAppend(bytes, d.spans, span, 8);
      RecordsTypeAppend(bytes, d.spans, span, 5);
      RecordsTypeAppend(bytes, d.spans, span, 1);
      d := d.(spans := d.spans + [span]);
      match nalType {
        case 7 => d := d.(hasSps := true);
        case 8 => d := d.(hasPps := true);
        case 5 => d := d.(hasIdr := true);
        case 1 => d := d.(hasNonIdrSlice := true);
        case _ =>
      }
      nalStart := nalEnd;
    }
    if all != d.spans {
      SplitEnds(bytes, nalStart);
    }
    if d.spans == [] {
      var nalType := NalType(bytes[0]);
      d := Descriptor([Span(0, |bytes|)], nalType == 7, nalType == 8, nalType == 5, nalType == 1);
    }
  }

  // The flags say which of the four types the recorded spans begin with.
  predicate FlagsMatch(b: seq<byte>, d: Descriptor) {
    && (d.hasSps <==> RecordsType(b, d.spans, 7))
    && (d.hasPps <==> RecordsType(b, d.spans, 8))
    && (d.hasIdr <==> RecordsType(b, d.spans, 5))
    && (d.hasNonIdrSlice <==> RecordsType(b, d.spans, 1))
  }

  lemma NothingRecorded(b: seq<byte>, t: nat)
    ensures !RecordsType(b, [], t)
  {
  }

  lemma RecordsTypeAppend(b: seq<byte>, spans: seq<Span>, span: Span, t: nat)
    requires span.offset < |b|
    ensures RecordsType(b, spans + [span], t) <==> RecordsType(b, spans, t) || NalType(b[span.offset]) == t
  {
    assert span in spans + [span];
    forall s | s in spans ensures s in spans + [span] {}
  }

  lemma RecordsTypePrepend(b: seq<byte>, span: Span, spans: seq<Span>, t: nat)
    requires span.offset < |b|
    ensures RecordsType(b, [span] + spans, t) <==> NalType(b[span.offset]) == t || RecordsType(b, spans, t)
  {
    assert span in [span] + spans;
    forall s | s in spans ensures s in [span] + spans {}
  }

  // `contains_nal_type` seen from position `i`: it looks at the byte after every start
  // code it meets and resumes one byte after that.
  predicate TypeFrom(b: seq<byte>, i: nat, t: nat)
    requires i <= |b|
    decreases |b| - i
  {
    if i == |b| then false
    else
      var n := PipelinePrefixSize(b, i);
      if n == 0 then TypeFrom(b, i + 1, t)
      else (i + n < |b| && NalType(b[i + n]) == t) || TypeFrom(b, Min(|b|, i + n + 1), t)
  }

  method ContainsNalType(data: seq<byte>, nalType: nat) returns (found: bool)
    requires 0 < nalType < 32
    ensures found <==> RecordsType(data, ScanSpans(data, 0), nalType)
  {
    hide PipelinePrefixSize, RecordsType, ScanSpans;
    TypeFromIsScan(data, 0, nalType);
    var i := 0;
    while i < |data|
      invariant 0 <= i
      invariant TypeFrom(data, 0, nalType) == TypeFrom(data, Min(|data|, i), nalType)
    {
      var prefix := PipelinePrefixSize(data, i);
      if prefix == 0 {
        i := i + 1;
        continue;
      }
      if i + prefix < |data| && NalType(data[i + prefix]) == nalType {
        return true;
      }
      i := i + prefix;
      i := i + 1;
    }
    return false;
  }

  // ---------------------------------------------------------------------------
  // Agreement of the scanners
  // ---------------------------------------------------------------------------

  lemma {:induction false} TypeFromSkips(b: seq<byte>, i: nat, t: nat)
    requires i <= |b|
    ensures TypeFrom(b, i, t) == TypeFrom(b, NextStart(b, i), t)
    decreases |b| - i
  {
    if i < |b| && StartCodeSize(b, i) == 0 {
      TypeFromSkips(b, i + 1, t);
    }
  }

  // What the pipeline's scanner does at a start code.
  lemma TypeFromTurn(b: seq<byte>, s: nat, t: nat)
    requires s < |b| && StartCodeSize(b, s) > 0
    ensures var p := s + StartCodeSize(b, s);
            TypeFrom(b, s, t) <==> p < |b| && (NalType(b[p]) == t || TypeFrom(b, p + 1, t))
  {
    hide StartCodeSize;
  }

  // For every type but 0 the pipeline's scanner finds exactly the types the descriptor's scan records.
  lemma {:induction false} TypeFromIsScan(b: seq<byte>, i: nat, t: nat)
    requires i <= |b| && 0 < t < 32
    ensures TypeFrom(b, i, t) <==> RecordsType(b, ScanSpans(b, i), t)
    decreases |b| - i
  {
    hide StartCodeSize, NextStart, RecordsType, ScanSpans, TypeFrom;
    TypeFromSkips(b, i, t);
    NothingRecorded(b, t);
    var s := NextStart(b, i);
    var p := s + StartCodeSize(b, s);
    if s == |b| {
      SplitEnds(b, i);
      TypeFromEnd(b, t);
    } else if p == |b| {
      SplitEnds(b, i);
      TypeFromTurn(b, s, t);
    } else {
      TypeFromTurn(b, s, t);
      var e := NextStart(b, p);
      ScanTurn(b, i, p, e, []);
      if e == p {
        TypeFromIsScan(b, p + 1, t);
      } else {
        NextStartFrom(b, p, p + 1);
        NextStartFrom(b, p, e);
        TypeFromSkips(b, p + 1, t);
        TypeFromIsScan(b, e, t);
        assert [] + ScanSpans(b, i) == ScanSpans(b, i);
        assert ScanSpans(b, i) == [Span(p, e - p)] + ScanSpans(b, e);
        RecordsTypePrepend(b, Span(p, e - p), ScanSpans(b, e), t);
      }
    }
  }

  lemma TypeFromEnd(b: seq<byte>, t: nat)
    ensures !TypeFrom(b, |b|, t)
  {
  }

  // Type 0 is different: an empty NAL unit between two start codes looks like type 0 to
  // the pipeline, and the descriptor does not record it.
  lemma TypeZeroDiffers(b: seq<byte>)
    requires b == [0, 0, 1, 0, 0, 1, 0x65]
    ensures TypeFrom(b, 0, 0) && ScanSpans(b, 0) == []
  {
    NextStartIs(b, 0, 0);
    NextStartIs(b, 3, 3);
    NextStartIs(b, 4, 7);
    assert ScanSpans(b, 4) == [];
  }

  // Whatever the bytes, each span the descriptor records is one of the splitter's.
  lemma {:induction false} ScanWithinSplit(b: seq<byte>, i: nat)
    requires i <= |b|
    ensures forall s :: s in ScanSpans(b, i) ==> s in SplitSpans(b, i)
    decreases |b| - i
  {
    var s := NextStart(b, i);
    if s < |b| {
      var p := s + StartCodeSize(b, s);
      if p < |b| {
        var e := NextStart(b, p);
        if e > p {
          ScanWithinSplit(b, e);
        } else {
          ScanWithinSplitAtAdjacentCode(b, p);
        }
      }
    }
  }

  // A four-byte start code contains the three-byte one; inside a three-byte one no other begins.
  lemma CodeInsideCode(b: seq<byte>, p: nat)
    requires StartCodeSize(b, p) > 0
    ensures StartCodeSize(b, p) == 4 ==> StartCodeSize(b, p + 1) == 3
    ensures StartCodeSize(b, p) == 3 ==> StartCodeSize(b, p + 1) == 0 && StartCodeSize(b, p + 2) == 0
  {
  }

  // What the two scanners make of a start code at `p` that directly follows another. The descriptor
  // resumes one byte late: harmless for a four-byte code, which contains the three-byte one.
  lemma AdjacentTurn(b: seq<byte>, p: nat)
    requires p < |b| && StartCodeSize(b, p) > 0
    ensures var q := p + StartCodeSize(b, p);
            if StartCodeSize(b, p) == 4 then SplitSpans(b, p) == SplitSpans(b, p + 1)
            else
              var e := NextStart(b, q);
              && ScanSpans(b, p + 1) == ScanSpans(b, e)
              && SplitSpans(b, p) == (if e > q then [Span(q, e - q)] else []) + SplitSpans(b, e)
  {
    hide StartCodeSize, NextStart, ScanSpans, SplitSpans;
    CodeInsideCode(b, p);
    NextStartHere(b, p);
    var q := p + StartCodeSize(b, p);
    if StartCodeSize(b, p) == 4 {
      NextStartHere(b, p + 1);
      SplitSameCode(b, p, p + 1);
    } else {
      var e := NextStart(b, q);
      NextStartHere(b, p + 1);
      NextStartHere(b, p + 2);
      NextStartFrom(b, q, e);
      ScanSameStart(b, p + 1, e);
      if q < |b| {
        SplitTurn(b, p, q, e, []);
        var head: seq<Span> := if e > q then [] + [Span(q, e - q)] else [];
        assert [] + SplitSpans(b, p) == SplitSpans(b, p);
        assert SplitSpans(b, p) == head + SplitSpans(b, e);
      } else {
        SplitEnds(b, p);
        SplitEnds(b, e);
      }
    }
  }

  // At a start code that directly follows another, resuming one byte late loses at most one NAL unit.
  lemma {:induction false} ScanWithinSplitAtAdjacentCode(b: seq<byte>, p: nat)
    requires p < |b| && StartCodeSize(b, p) > 0
    ensures forall s :: s in ScanSpans(b, p + 1) ==> s in SplitSpans(b, p)
    decreases |b| - p, 0
  {
    hide StartCodeSize, NextStart, ScanSpans, SplitSpans;
    AdjacentTurn(b, p);
    if StartCodeSize(b, p) == 4 {
      ScanWithinSplit(b, p + 1);
    } else {
      ScanWithinSplit(b, NextStart(b, p + StartCodeSize(b, p)));
    }
  }

  lemma NextStartHere(b: seq<byte>, p: nat)
    requires p < |b|
    ensures StartCodeSize(b, p) > 0 ==> NextStart(b, p) == p
    ensures StartCodeSize(b, p) == 0 ==> NextStart(b, p) == NextStart(b, p + 1)
  {
  }

  // Two start codes that end at the same byte lead to the same NAL units.
  lemma SplitSameCode(b: seq<byte>, i: nat, j: nat)
    requires i < |b| && j < |b| && NextStart(b, i) == i && NextStart(b, j) == j
    requires i + StartCodeSize(b, i) == j + StartCodeSize(b, j)
    ensures SplitSpans(b, i) == SplitSpans(b, j)
  {
    hide StartCodeSize, NextStart;
  }

  lemma ScanSameStart(b: seq<byte>, i: nat, j: nat)
    requires i <= |b| && j <= |b| && NextStart(b, i) == NextStart(b, j)
    ensures ScanSpans(b, i) == ScanSpans(b, j)
  {
    hide StartCodeSize, NextStart;
  }

  // From position `i` on the descriptor misses a NAL unit: one that is not empty, behind a
  // three-byte start code that directly follows another code the descriptor stops at.
  predicate LosesNal(b: seq<byte>, i: nat)
    requires i <= |b|
    decreases |b| - i
  {
    var s := NextStart(b, i);
    if s == |b| then false
    else
      var p := s + StartCodeSize(b, s);
      if p >= |b| then false
      else if NextStart(b, p) > p then LosesNal(b, NextStart(b, p))
      else if StartCodeSize(b, p) == 4 then LosesNal(b, p + 1)
      else
        var q := p + StartCodeSize(b, p);
        q < |b| && (NextStart(b, q) > q || LosesNal(b, q))
  }

  // The descriptor records exactly the splitter's NAL units when it loses none, and fewer otherwise.
  lemma {:induction false} ScanSplitsOrLoses(b: seq<byte>, i: nat)
    requires i <= |b|
    ensures !LosesNal(b, i) ==> ScanSpans(b, i) == SplitSpans(b, i)
    ensures LosesNal(b, i) ==> |ScanSpans(b, i)| < |SplitSpans(b, i)|
    decreases |b| - i
  {
    hide StartCodeSize, NextStart, ScanSpans, SplitSpans;
    var s := NextStart(b, i);
    var p := s + StartCodeSize(b, s);
    if s == |b| || p == |b| {
      SplitEnds(b, i);
    } else {
      var e := NextStart(b, p);
      ScanTurn(b, i, p, e, []);
      SplitTurn(b, i, p, e, []);
      assert [] + SplitSpans(b, i) == SplitSpans(b, i) && [] + ScanSpans(b, i) == ScanSpans(b, i);
      if e > p {
        ScanSplitsOrLoses(b, e);
        assert [] + [Span(p, e - p)] == [Span(p, e - p)];
      } else {
        AdjacentTurn(b, p);
        assert [] + SplitSpans(b, e) == SplitSpans(b, e);
        if StartCodeSize(b, p) == 4 {
          ScanSplitsOrLoses(b, p + 1);
        } else {
          var q := p + StartCodeSize(b, p);
          ScanSplitsOrLoses(b, NextStart(b, q));
          EndLosesNothing(b);
        }
      }
    }
  }

  lemma EndLosesNothing(b: seq<byte>)
    ensures NextStart(b, |b|) == |b| && !LosesNal(b, |b|)
  {
  }

  // The descriptor's spans are the splitter's slices if and only if the descriptor loses no NAL unit.
  lemma ScanIsSplit(b: seq<byte>)
    ensures ScanSpans(b, 0) == SplitSpans(b, 0) <==> !LosesNal(b, 0)
  {
    ScanSplitsOrLoses(b, 0);
  }

  // No start code begins exactly where the payload of another would.
  predicate NoAdjacentCodes(b: seq<byte>) {
    forall k :: 0 <= k < |b| && StartCodeSize(b, k) > 0 ==> StartCodeSize(b, k + StartCodeSize(b, k)) == 0
  }

  // In particular it loses none when no start code directly follows another.
  lemma {:induction false} NoAdjacentCodesLosesNothing(b: seq<byte>, i: nat)
    requires i <= |b| && NoAdjacentCodes(b)
    ensures !LosesNal(b, i)
    decreases |b| - i
  {
    hide StartCodeSize;
    var s := NextStart(b, i);
    var p := s + StartCodeSize(b, s);
    if s == |b| || p == |b| {
    } else {
      assert StartCodeSize(b, p) == 0;
      NoAdjacentCodesLosesNothing(b, NextStart(b, p));
    }
  }

  // With adjacent codes they can differ: the IDR slice that the splitter sends is invisible to the descriptor.
  lemma AdjacentCodesHideNal(b: seq<byte>)
    requires b == [0, 0, 1, 0, 0, 1, 0x65]
    ensures Split(b) == [[0x65]] && !DescribesType(b, 5)
  {
    TypeZeroDiffers(b);
    assert NextStart(b, 0) == 0;
    NextStartIs(b, 3, 3);
    NextStartIs(b, 6, 7);
    assert SplitSpans(b, 7) == [];
    assert SplitSpans(b, 3) == [Span(6, 1)];
    assert SplitSpans(b, 0) == [Span(6, 1)];
    assert Slice(b, Span(6, 1)) == [0x65];
    assert SlicesOf(b, [Span(6, 1)]) == [[0x65]];
  }

  // One of the split NAL units has the type.
  ghost predicate Carries(b: seq<byte>, t: nat) {
    exists k :: 0 <= k < |Split(b)| && Split(b)[k] != [] && NalType(Split(b)[k][0]) == t
  }

  lemma CarriedTypes(b: seq<byte>, t: nat)
    requires b != []
    ensures Carries(b, t) <==>
            if SplitSpans(b, 0) == [] then NalType(b[0]) == t else RecordsType(b, SplitSpans(b, 0), t)
  {
    hide SplitSpans;
    var spans := SplitSpans(b, 0);
    if spans == [] {
      assert Split(b) == [b] && Split(b)[0] == b;
    } else {
      forall k | 0 <= k < |spans|
        ensures Split(b)[k] != [] && Split(b)[k][0] == b[spans[k].offset]
      {
        SplitSpansInBounds(b, 0, k);
      }
      if RecordsType(b, spans, t) {
        var s :| s in spans && s.offset < |b| && NalType(b[s.offset]) == t;
        var k :| 0 <= k < |spans| && spans[k] == s;
        assert NalType(Split(b)[k][0]) == t;
      }
      if Carries(b, t) {
        var k :| 0 <= k < |Split(b)| && Split(b)[k] != [] && NalType(Split(b)[k][0]) == t;
        SplitSpansInBounds(b, 0, k);
        assert spans[k] in spans;
      }
    }
  }

  // The descriptor recorded nothing, the splitter cut something out, and the type is only that of
  // the stream's first byte.
  predicate OnlyFirstByteSays(b: seq<byte>, t: nat)
    requires b != []
  {
    ScanSpans(b, 0) == [] && SplitSpans(b, 0) != [] && NalType(b[0]) == t && !RecordsType(b, SplitSpans(b, 0), t)
  }

  // This is the exact case in which the descriptor flags a type that no split NAL unit has.
  lemma DescribedButNotCarried(b: seq<byte>, t: nat)
    requires b != []
    ensures DescribesType(b, t) && !Carries(b, t) <==> OnlyFirstByteSays(b, t)
  {
    hide SplitSpans, ScanSpans, RecordsType, Carries;
    CarriedTypes(b, t);
    if ScanSpans(b, 0) != [] && RecordsType(b, ScanSpans(b, 0), t) {
      ScannedTypeIsSplit(b, t);
    }
  }

  // A type recorded by the scan (not by the fallback) is carried by one of the split NAL units.
  lemma ScannedTypeIsSplit(b: seq<byte>, t: nat)
    requires b != [] && RecordsType(b, ScanSpans(b, 0), t)
    ensures SplitSpans(b, 0) != [] && RecordsType(b, SplitSpans(b, 0), t) && Carries(b, t)
  {
    hide SplitSpans, ScanSpans, Carries;
    ScanWithinSplit(b, 0);
    CarriedTypes(b, t);
  }

  // In a stream that begins with a start code every described type but 0 is carried.
  lemma DescribedIsCarried(b: seq<byte>, t: nat)
    requires b != [] && 0 < t && StartCodeSize(b, 0) > 0
    ensures !OnlyFirstByteSays(b, t)
    ensures DescribesType(b, t) ==> Carries(b, t)
  {
    hide SplitSpans, ScanSpans, RecordsType, Carries;
    DescribedButNotCarried(b, t);
  }

  lemma LoneIdrIsDescribed(b: seq<byte>)
    requires b == [0, 0, 1, 0x65]
    ensures DescribesType(b, 5)
  {
    NextStartIs(b, 0, 0);
    NextStartIs(b, 3, 4);
    assert ScanSpans(b, 4) == [];
    assert ScanSpans(b, 0) == [Span(3, 1)];
    assert Span(3, 1) in ScanSpans(b, 0);
  }

  // The fallback can claim an IDR slice that no split NAL unit carries.
  lemma FallbackIdrIsNotSent(b: seq<byte>)
    requires b == [0x65, 0, 0, 1, 0, 0, 1, 0x41]
    ensures DescribesType(b, 5) && Split(b) == [[0x41]]
  {
    NextStartIs(b, 0, 1);
    NextStartIs(b, 4, 4);
    NextStartIs(b, 5, 8);
    NextStartIs(b, 7, 8);
    assert ScanSpans(b, 5) == [];
    assert ScanSpans(b, 0) == [];
    assert SplitSpans(b, 8) == [];
    assert SplitSpans(b, 4) == [Span(7, 1)];
    assert SplitSpans(b, 0) == [Span(7, 1)];
    assert Slice(b, Span(7, 1)) == [0x41];
    assert SlicesOf(b, [Span(7, 1)]) == [[0x41]];
  }
}
