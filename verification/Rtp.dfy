// RTP packets (section 5.1 of RFC 3550) carrying H.264 NAL units as single NAL unit
// packets or FU-A fragments (sections 5.6 and 5.8 of RFC 6184).
module Rtp {
  import opened Bytes
  import opened AnnexB

  const MAX_PAYLOAD: nat := 1200
  const FRAGMENT_CAPACITY: nat := MAX_PAYLOAD - 2
  const FU_A: nat := 28

  // ---------------------------------------------------------------------------
  // The 12-byte header
  // ---------------------------------------------------------------------------

  datatype Header = Header(marker: bool, payloadType: byte, sequenceNumber: nat, timestamp: nat, ssrc: nat)

  predicate ValidHeader(h: Header) {
    h.sequenceNumber < U16 && h.timestamp < U32 && h.ssrc < U32
  }

  // The marker bit is or-ed onto the payload type, whatever its value.
  function MakePacket(payload: seq<byte>, h: Header): (packet: seq<byte>)
    requires ValidHeader(h)
    ensures |packet| == 12 + |payload| && packet[12..] == payload
  {
    [0x80,
     if h.marker && h.payloadType < 128 then h.payloadType + 128 else h.payloadType,
     h.sequenceNumber / 256, h.sequenceNumber % 256,
     h.timestamp / 0x100_0000, h.timestamp / 0x1_0000 % 256, h.timestamp / 256 % 256, h.timestamp % 256,
     h.ssrc / 0x100_0000, h.ssrc / 0x1_0000 % 256, h.ssrc / 256 % 256, h.ssrc % 256]
    + payload
  }

  // The layout of section 5.1 of RFC 3550: version 2 without padding, extension or contributing
  // sources, then marker and payload type, then three numbers in network order.
  lemma HeaderLayout(payload: seq<byte>, h: Header)
    requires ValidHeader(h)
    ensures var p := MakePacket(payload, h);
            && p[0] == 128
            && (h.payloadType < 128 ==> p[1] == (if h.marker then 128 else 0) + h.payloadType)
            && p[2] as int * 256 + p[3] as int == h.sequenceNumber
            && ((p[4] as int * 256 + p[5] as int) * 256 + p[6] as int) * 256 + p[7] as int == h.timestamp
            && ((p[8] as int * 256 + p[9] as int) * 256 + p[10] as int) * 256 + p[11] as int == h.ssrc
            && p[12..] == payload
  {
    OctetsOf(h.timestamp);
    OctetsOf(h.ssrc);
  }

  // A receiver's reading of a packet without padding, extension or contributing sources.
  function ParsePacket(packet: seq<byte>): Option<(Header, seq<byte>)> {
    if |packet| < 12 || packet[0] != 0x80 then None
    else
      Some((Header(packet[1] >= 128, packet[1] % 128, BigEndian(packet[2..4]), BigEndian(packet[4..8]), BigEndian(packet[8..12])),
            packet[12..]))
  }

  // Octets in network order.
  function BigEndian(octets: seq<byte>): nat {
    if octets == [] then 0 else BigEndian(octets[..|octets| - 1]) * 256 + octets[|octets| - 1] as int
  }

  lemma BigEndianTwo(o: seq<byte>)
    requires |o| == 2
    ensures BigEndian(o) == o[0] as int * 256 + o[1] as int
  {
    assert o[..1][..0] == [];
    assert BigEndian(o[..1]) == o[0] as int;
  }

  lemma BigEndianFour(o: seq<byte>)
    requires |o| == 4
    ensures BigEndian(o) == ((o[0] as int * 256 + o[1] as int) * 256 + o[2] as int) * 256 + o[3] as int
  {
    assert o[..3][..2] == o[..2];
    BigEndianTwo(o[..2]);
  }

  lemma OctetsOf(x: nat)
    requires x < U32
    ensures ((x / 0x100_0000 * 256 + x / 0x1_0000 % 256) * 256 + x / 256 % 256) * 256 + x % 256 == x
    ensures x / 0x100_0000 < 256
  {
  }

  // A receiver reads back every header field exactly when the payload type fits its seven bits.
  lemma HeaderRoundTrip(payload: seq<byte>, h: Header)
    requires ValidHeader(h)
    ensures ParsePacket(MakePacket(payload, h)) == Some((h, payload)) <==> h.payloadType < 128
  {
    OctetsOf(h.timestamp);
    OctetsOf(h.ssrc);
    var p := MakePacket(payload, h);
    BigEndianTwo(p[2..4]);
    BigEndianFour(p[4..8]);
    BigEndianFour(p[8..12]);
    assert p[1] == if h.marker && h.payloadType < 128 then h.payloadType + 128 else h.payloadType;
  }

  // The timestamp is computed in 64-bit arithmetic that wraps before the division.
  function RtpTimestamp(timestampNs: nat): (t: nat)
    ensures t < U32
  {
    timestampNs * 90000 % U64 / 1000000000 % U32
  }

  // For 64-bit timestamps it is the 90 kHz clock value modulo 2^32 exactly up to (2^64 - 1) / 90000 ns.
  lemma TimestampExact(timestampNs: nat)
    requires timestampNs < U64
    ensures RtpTimestamp(timestampNs) == timestampNs * 9 / 100000 % U32 <==> timestampNs <= (U64 - 1) / 90000
  {
    var product := timestampNs * 90000;
    assert product / 1000000000 == timestampNs * 9 / 100000;
    if timestampNs <= (U64 - 1) / 90000 {
      assert product % U64 == product;
    } else {
      var lost, kept := product / U64, product % U64;
      assert product == lost * U64 + kept && 0 < lost < 90000;
      LostPartShows(product / 1000000000, kept / 1000000000, lost, product, kept);
    }
  }

  // Beyond that it is what remains of the product when its turns of 64 bits are taken off.
  lemma TimestampBeyond(timestampNs: nat, turns: nat)
    requires turns * U64 <= timestampNs * 90000 < turns * U64 + U64
    ensures RtpTimestamp(timestampNs) == (timestampNs * 90000 - turns * U64) / 1000000000 % U32
  {
    RemainderOf(timestampNs * 90000, turns);
  }

  lemma RemainderOf(product: nat, turns: nat)
    requires turns * U64 <= product < turns * U64 + U64
    ensures product % U64 == product - turns * U64
  {
    assert product / U64 == turns;
  }

  // The part of the product beyond 64 bits never amounts to whole turns of the 32-bit clock.
  lemma LostPartShows(x: nat, y: nat, lost: nat, product: nat, kept: nat)
    requires product == lost * U64 + kept && lost < 90000
    requires x == product / 1000000000 && y == kept / 1000000000
    ensures x % U32 == y % U32 ==> lost == 0
  {
    if x % U32 == y % U32 {
      var turns := (x as int - y as int) / U32;
      SameRemainder(x, y, U32);
      assert x - y == turns * U32;
      assert x * 1000000000 <= product < x * 1000000000 + 1000000000;
      assert y * 1000000000 <= kept < y * 1000000000 + 1000000000;
      assert -1000000000 < (x - y) * 1000000000 - lost * U64 < 1000000000;
      assert (x - y) * 1000000000 - lost * U64 == (turns * 1000000000 - lost * U32) * U32;
      SmallMultiple(turns * 1000000000 - lost * U32, U32);
      NoWholeTurns(turns, lost);
    }
  }

  lemma SameRemainder(x: nat, y: nat, m: nat)
    requires m > 0 && x % m == y % m
    ensures (x as int - y as int) == (x as int - y as int) / m * m
  {
    var d := x / m - y / m;
    assert x == x / m * m + x % m && y == y / m * m + y % m;
    assert x - y == d * m;
    MultipleDivides(d, m);
  }

  lemma MultipleDivides(d: int, m: nat)
    requires m > 0
    ensures d * m / m == d
  {
    var e := d * m / m;
    assert d * m == e * m + d * m % m;
    assert d * m % m == (d - e) * m;
    SmallMultiple(d - e, m);
  }

  lemma SmallMultiple(d: int, m: nat)
    requires -(m as int) < d * m < m
    ensures d == 0
  {
  }

  // 10^9 and 2^32 share no factor of five, so fewer than 5^9 overflows are no whole number of turns.
  lemma NoWholeTurns(turns: int, lost: nat)
    requires lost < 90000 && turns * 1000000000 == lost * U32
    ensures lost == 0
  {
    assert turns * 1953125 == lost * 8388608;
    assert 8388608 * 1241897 == 1953125 * 5333907 + 1;
    var m := turns * 1241897 - lost * 5333907;
    assert lost == 1953125 * m;
  }

  // ---------------------------------------------------------------------------
  // Fragmentation
  // ---------------------------------------------------------------------------

  // One FU-A payload: the indicator keeps the NRI bits, the header carries S, E and the NAL type.
  function FuPayload(nal: seq<byte>, offset: nat, size: nat): (payload: seq<byte>)
    requires 0 < offset <= offset + size <= |nal|
    ensures |payload| == 2 + size
  {
    var start := if offset == 1 then 128 else 0;
    var end := if offset + size == |nal| then 64 else 0;
    [nal[0] / 32 * 32 + FU_A, start + end + NalType(nal[0])] + nal[offset..offset + size]
  }

  function FragmentSize(nal: seq<byte>, offset: nat): (size: nat)
    requires offset < |nal|
    ensures 0 < size <= FRAGMENT_CAPACITY && offset + size <= |nal|
  {
    Min(FRAGMENT_CAPACITY, |nal| - offset)
  }

  function Fragments(nal: seq<byte>, offset: nat): seq<seq<byte>>
    requires 0 < offset <= |nal|
    decreases |nal| - offset
  {
    if offset == |nal| then []
    else
      var size := FragmentSize(nal, offset);
      [FuPayload(nal, offset, size)] + Fragments(nal, offset + size)
  }

  // RTP payloads of one NAL unit.
  function Payloads(nal: seq<byte>): (payloads: seq<seq<byte>>)
    ensures nal != [] <==> payloads != []
  {
    if nal == [] then []
    else if |nal| <= MAX_PAYLOAD then [nal]
    else Fragments(nal, 1)
  }

  function PayloadsOf(nals: seq<seq<byte>>): seq<seq<byte>> {
    if nals == [] then [] else Payloads(nals[0]) + PayloadsOf(nals[1..])
  }

  lemma {:induction false} PayloadsOfConcat(xs: seq<seq<byte>>, ys: seq<seq<byte>>)
    ensures PayloadsOf(xs + ys) == PayloadsOf(xs) + PayloadsOf(ys)
  {
    hide Payloads;
    if xs == [] {
      assert xs + ys == ys;
    } else {
      assert (xs + ys)[1..] == xs[1..] + ys;
      PayloadsOfConcat(xs[1..], ys);
    }
  }

  // How a NAL unit of more than 1200 bytes is cut: all fragments but the last carry 1198 of its
  // bytes after the first, so their payloads have exactly 1200 bytes, and there are as few as possible.
  lemma {:induction false} FragmentCut(nal: seq<byte>, offset: nat)
    requires 0 < offset <= |nal|
    ensures |Fragments(nal, offset)| == (|nal| - offset + 1197) / 1198
    ensures forall k :: 0 <= k < |Fragments(nal, offset)| ==> IsFragment(Fragments(nal, offset)[k], nal, offset + 1198 * k)
    decreases |nal| - offset
  {
    hide IsFragment;
    if offset == |nal| {
    } else {
      var size := FragmentSize(nal, offset);
      var rest := Fragments(nal, offset + size);
      FragmentCut(nal, offset + size);
      FragmentShape(nal, offset);
      if offset + size < |nal| {
        assert size == 1198;
        assert |nal| - offset + 1197 == (|nal| - (offset + 1198) + 1197) + 1198;
      } else {
        assert rest == [];
      }
      forall k | 0 <= k < |Fragments(nal, offset)|
        ensures IsFragment(Fragments(nal, offset)[k], nal, offset + 1198 * k)
      {
        if k > 0 {
          assert Fragments(nal, offset)[k] == rest[k - 1];
        }
      }
    }
  }

  // The payload that carries the bytes of a NAL unit from `at` on: indicator, header with S on the first
  // and E on the last fragment (section 5.8 of RFC 6184), and up to 1198 bytes.
  predicate IsFragment(p: seq<byte>, nal: seq<byte>, at: nat) {
    && 0 < at < |nal|
    && |p| == (if |nal| - at > 1198 then 1200 else 2 + |nal| - at)
    && p[0] % 32 == 28 && p[0] / 32 == nal[0] / 32
    && p[1] as int == (if at == 1 then 128 else 0) + (if |nal| - at <= 1198 then 64 else 0) + nal[0] as int % 32
    && p[2..] == nal[at..at + |p| - 2]
  }

  lemma FragmentShape(nal: seq<byte>, offset: nat)
    requires 0 < offset < |nal|
    ensures IsFragment(FuPayload(nal, offset, FragmentSize(nal, offset)), nal, offset)
  {
  }

  // The packets that a NAL unit of this size takes.
  function PacketsFor(size: nat): nat {
    if size == 0 then 0 else if size <= 1200 then 1 else (size - 1 + 1197) / 1198
  }

  // A NAL unit of up to 1200 bytes is one payload, a longer one is cut as above.
  lemma PayloadCut(nal: seq<byte>)
    ensures |Payloads(nal)| == PacketsFor(|nal|)
    ensures forall k :: 0 <= k < |Payloads(nal)| ==>
              if |nal| <= 1200 then Payloads(nal)[k] == nal else IsFragment(Payloads(nal)[k], nal, 1 + 1198 * k)
  {
    hide IsFragment;
    if |nal| > 1200 {
      FragmentCut(nal, 1);
    }
  }

  function PacketTotal(nals: seq<seq<byte>>): nat {
    if nals == [] then 0 else PacketsFor(|nals[0]|) + PacketTotal(nals[1..])
  }

  // A payload of a call: a whole NAL unit of up to 1200 bytes, or a fragment of a longer one.
  ghost predicate FromCall(p: seq<byte>, nals: seq<seq<byte>>) {
    (p in nals && 0 < |p| <= 1200) || exists nal, at: nat :: nal in nals && |nal| > 1200 && at % 1198 == 1 && IsFragment(p, nal, at)
  }

  // The payloads of a call: how many there are, and what each of them is.
  lemma {:induction false} CallCut(nals: seq<seq<byte>>)
    ensures |PayloadsOf(nals)| == PacketTotal(nals)
    ensures forall p :: p in PayloadsOf(nals) ==> FromCall(p, nals)
  {
    hide IsFragment, Payloads;
    if nals == [] {
    } else {
      var nal, tail := nals[0], nals[1..];
      PayloadCut(nal);
      CallCut(tail);
      forall p | p in PayloadsOf(nals)
        ensures FromCall(p, nals)
      {
        if p in Payloads(nal) {
          var k :| 0 <= k < |Payloads(nal)| && Payloads(nal)[k] == p;
          assert nal in nals && (1 + 1198 * k) % 1198 == 1;
        } else {
          assert FromCall(p, tail);
          assert forall n :: n in tail ==> n in nals;
        }
      }
    }
  }

  // Every payload is non-empty and fits the limit, and no fragment is both the first and the last.
  predicate FitsLimit(payload: seq<byte>) {
    0 < |payload| <= MAX_PAYLOAD
  }

  predicate StartAndEnd(payload: seq<byte>) {
    |payload| >= 2 && NalType(payload[0]) == FU_A && payload[1] >= 128 && payload[1] % 128 >= 64
  }

  lemma {:induction false} FragmentsFit(nal: seq<byte>, offset: nat)
    requires 0 < offset <= |nal| && (offset == 1 ==> |nal| > MAX_PAYLOAD)
    ensures forall p :: p in Fragments(nal, offset) ==> FitsLimit(p) && !StartAndEnd(p)
    decreases |nal| - offset
  {
    if offset == |nal| {
    } else {
      var size := FragmentSize(nal, offset);
      FragmentsFit(nal, offset + size);
      assert !StartAndEnd(FuPayload(nal, offset, size));
    }
  }

  lemma {:induction false} PayloadsFit(nals: seq<seq<byte>>, k: nat)
    requires k < |PayloadsOf(nals)|
    ensures FitsLimit(PayloadsOf(nals)[k])
    ensures StartAndEnd(PayloadsOf(nals)[k]) ==> PayloadsOf(nals)[k] in nals
  {
    var head := Payloads(nals[0]);
    if k < |head| {
      if |nals[0]| > MAX_PAYLOAD {
        FragmentsFit(nals[0], 1);
        assert head[k] in Fragments(nals[0], 1);
      }
    } else {
      assert PayloadsOf(nals)[k] == PayloadsOf(nals[1..])[k - |head|];
      PayloadsFit(nals[1..], k - |head|);
    }
  }

  // ---------------------------------------------------------------------------
  // A strict RFC 6184 depacketiser
  // ---------------------------------------------------------------------------

  // NAL units delivered so far, and the one being reassembled.
  datatype Receiver = Receiver(nals: seq<seq<byte>>, partial: Option<seq<byte>>)

  function Receive(r: Receiver, payload: seq<byte>): Option<Receiver> {
    if payload == [] then None
    else if 1 <= NalType(payload[0]) <= 23 then
      if r.partial.None? then Some(r.(nals := r.nals + [payload])) else None
    else if NalType(payload[0]) == FU_A && |payload| >= 2 && !StartAndEnd(payload) then
      if payload[1] >= 128 then
        if r.partial.Some? then None
        else Some(r.(partial := Some([payload[0] / 32 * 32 + NalType(payload[1])] + payload[2..])))
      else if r.partial.None? then None
      else if payload[1] >= 64 then Some(Receiver(r.nals + [r.partial.value + payload[2..]], None))
      else Some(r.(partial := Some(r.partial.value + payload[2..])))
    else None
  }

  function ReceiveAll(r: Receiver, payloads: seq<seq<byte>>): Option<Receiver>
    decreases |payloads|
  {
    if payloads == [] then Some(r)
    else
      match Receive(r, payloads[0])
      case None => None
      case Some(r') => ReceiveAll(r', payloads[1..])
  }

  function Depacketise(payloads: seq<seq<byte>>): Option<seq<seq<byte>>> {
    match ReceiveAll(Receiver([], None), payloads)
    case None => None
    case Some(r) => if r.partial.None? then Some(r.nals) else None
  }

  lemma {:induction false} ReceiveAllConcat(r: Receiver, xs: seq<seq<byte>>, ys: seq<seq<byte>>)
    ensures ReceiveAll(r, xs + ys) ==
            match ReceiveAll(r, xs) case None => None case Some(r') => ReceiveAll(r', ys)
    decreases |xs|
  {
    if xs == [] {
      assert xs + ys == ys;
    } else {
      assert (xs + ys)[1..] == xs[1..] + ys;
      match Receive(r, xs[0]) {
        case None =>
        case Some(r') => ReceiveAllConcat(r', xs[1..], ys);
      }
    }
  }

  // Fragments put a NAL unit back together, from any byte on.
  lemma {:induction false} FragmentsReassemble(r: Receiver, nal: seq<byte>, offset: nat)
    requires |nal| > MAX_PAYLOAD && 0 < offset < |nal|
    requires r.partial == if offset == 1 then None else Some(nal[..offset])
    ensures ReceiveAll(r, Fragments(nal, offset)) == Some(Receiver(r.nals + [nal], None))
    decreases |nal| - offset
  {
    var size := FragmentSize(nal, offset);
    var payload := FuPayload(nal, offset, size);
    var rest := Fragments(nal, offset + size);
    FuPayloadFields(nal, offset, size);
    assert ([payload] + rest)[1..] == rest;
    assert nal[..offset] + nal[offset..offset + size] == nal[..offset + size];
    assert [nal[0]] == nal[..1];
    if offset + size == |nal| {
      assert nal[..|nal|] == nal;
      assert rest == [];
    } else {
      FragmentsReassemble(r.(partial := Some(nal[..offset + size])), nal, offset + size);
    }
  }

  lemma FuPayloadFields(nal: seq<byte>, offset: nat, size: nat)
    requires 0 < offset <= offset + size <= |nal|
    ensures var p := FuPayload(nal, offset, size);
            && NalType(p[0]) == FU_A && p[0] / 32 * 32 + NalType(p[1]) == nal[0]
            && (p[1] >= 128 <==> offset == 1) && (p[1] % 128 >= 64 <==> offset + size == |nal|)
            && p[2..] == nal[offset..offset + size]
  {
  }

  // The NAL units that a receiver can tell apart from aggregation and fragmentation packets.
  predicate Carriable(nal: seq<byte>) {
    nal != [] && (|nal| > MAX_PAYLOAD || 1 <= NalType(nal[0]) <= 23)
  }

  lemma CarriableNalArrives(r: Receiver, nal: seq<byte>)
    requires r.partial.None? && Carriable(nal)
    ensures ReceiveAll(r, Payloads(nal)) == Some(Receiver(r.nals + [nal], None))
  {
    if |nal| > MAX_PAYLOAD {
      FragmentsReassemble(r, nal, 1);
    } else {
      OnePayload(r, nal);
    }
  }

  lemma {:induction false} CarriableArrives(r: Receiver, nals: seq<seq<byte>>)
    requires r.partial.None? && forall n :: n in nals ==> Carriable(n)
    ensures ReceiveAll(r, PayloadsOf(nals)) == Some(Receiver(r.nals + nals, None))
    decreases |nals|
  {
    hide Receive, ReceiveAll, Payloads, Carriable;
    if nals == [] {
      assert PayloadsOf(nals) == [];
      ReceiveNothing(r);
      assert r.nals + nals == r.nals;
    } else {
      var nal := nals[0];
      assert Carriable(nal);
      ReceiveAllConcat(r, Payloads(nal), PayloadsOf(nals[1..]));
      CarriableNalArrives(r, nal);
      CarriableArrives(Receiver(r.nals + [nal], None), nals[1..]);
      assert r.nals + [nal] + nals[1..] == r.nals + nals;
    }
  }

  // A receiver never delivers more NAL units than were packetised.
  lemma {:induction false} NoExtraNals(r: Receiver, nals: seq<seq<byte>>)
    ensures var out := ReceiveAll(r, PayloadsOf(nals));
            out.Some? ==> r.nals <= out.value.nals && |out.value.nals| <= |r.nals| + |nals|
    decreases |nals|
  {
    if nals == [] {
    } else {
      var nal := nals[0];
      ReceiveAllConcat(r, Payloads(nal), PayloadsOf(nals[1..]));
      if |nal| > MAX_PAYLOAD {
        if r.partial.None? {
          FragmentsReassemble(r, nal, 1);
          NoExtraNals(Receiver(r.nals + [nal], None), nals[1..]);
        } else {
          FirstFragmentRefused(r, nal);
        }
      } else if nal != [] {
        OnePayload(r, nal);
        if Receive(r, nal).Some? {
          NoExtraNals(Receive(r, nal).value, nals[1..]);
        }
      } else {
        NoExtraNals(r, nals[1..]);
      }
    }
  }

  lemma ReceiveNothing(r: Receiver)
    ensures ReceiveAll(r, []) == Some(r)
  {
  }

  lemma OnePayload(r: Receiver, payload: seq<byte>)
    ensures ReceiveAll(r, [payload]) == Receive(r, payload)
  {
    assert [payload][1..] == [];
  }

  lemma FirstFragmentRefused(r: Receiver, nal: seq<byte>)
    requires |nal| > MAX_PAYLOAD && r.partial.Some?
    ensures ReceiveAll(r, Payloads(nal)).None?
  {
    var size := FragmentSize(nal, 1);
    FuPayloadFields(nal, 1, size);
    var rest := Fragments(nal, 1 + size);
    assert Payloads(nal)[0] == FuPayload(nal, 1, size);
  }

  lemma {:induction false} OnlyCarriableArrives(r: Receiver, nals: seq<seq<byte>>)
    requires r.partial.None?
    requires ReceiveAll(r, PayloadsOf(nals)) == Some(Receiver(r.nals + nals, None))
    ensures forall n :: n in nals ==> Carriable(n)
    decreases |nals|
  {
    hide Receive, ReceiveAll, Payloads, Carriable;
    if nals == [] {
    } else {
      var nal, tail := nals[0], nals[1..];
      ReceiveAllConcat(r, Payloads(nal), PayloadsOf(tail));
      assert |r.nals + nals| == |r.nals| + 1 + |tail|;
      if Carriable(nal) {
        CarriableNalArrives(r, nal);
        assert r.nals + nals == r.nals + [nal] + tail;
        OnlyCarriableArrives(Receiver(r.nals + [nal], None), tail);
      } else {
        UncarriableIsLost(r, nal, tail);
      }
    }
  }

  // A NAL unit that is not carriable leaves its list short.
  lemma UncarriableIsLost(r: Receiver, nal: seq<byte>, tail: seq<seq<byte>>)
    requires r.partial.None? && !Carriable(nal)
    ensures match ReceiveAll(r, Payloads(nal))
            case None => true
            case Some(r') =>
              var out := ReceiveAll(r', PayloadsOf(tail));
              out.Some? ==> |out.value.nals| <= |r.nals| + |tail|
  {
    hide ReceiveAll;
    if nal == [] {
      ReceiveNothing(r);
      NoExtraNals(r, tail);
    } else {
      OnePayload(r, nal);
      if Receive(r, nal).Some? {
        NoExtraNals(Receive(r, nal).value, tail);
      }
    }
  }

  // Packetising and depacketising is the identity exactly on lists of carriable NAL units.
  lemma PacketiseRoundTrip(nals: seq<seq<byte>>)
    ensures Depacketise(PayloadsOf(nals)) == Some(nals) <==> forall n :: n in nals ==> Carriable(n)
  {
    var r := Receiver([], None);
    assert r.nals + nals == nals;
    if forall n :: n in nals ==> Carriable(n) {
      CarriableArrives(r, nals);
    }
    if Depacketise(PayloadsOf(nals)) == Some(nals) {
      assert ReceiveAll(r, PayloadsOf(nals)).value == Receiver(nals, None);
      OnlyCarriableArrives(r, nals);
    }
  }

  // ---------------------------------------------------------------------------
  // The packets of one call
  // ---------------------------------------------------------------------------

  // One packet to be made: its payload, its marker bit and whether it belongs to the startup sequence.
  datatype Piece = Piece(payload: seq<byte>, marker: bool, startup: bool)

  function PiecesOf(ps: seq<seq<byte>>, lastNal: bool, startup: bool): (pieces: seq<Piece>) {
    seq(|ps|, j requires 0 <= j < |ps| => Piece(ps[j], lastNal && j + 1 == |ps|, startup))
  }

  lemma PiecesOfHead(p: seq<byte>, ps: seq<seq<byte>>, lastNal: bool, startup: bool)
    ensures PiecesOf([p] + ps, lastNal, startup) ==
            [Piece(p, lastNal && ps == [], startup)] + PiecesOf(ps, lastNal, startup)
  {
  }

  function PiecesOfNal(nal: seq<byte>, lastNal: bool, startup: bool): (pieces: seq<Piece>) {
    PiecesOf(Payloads(nal), lastNal, startup)
  }

  function PiecesFrom(nals: seq<seq<byte>>, i: nat, startupNals: nat): seq<Piece>
    requires i <= |nals|
    decreases |nals| - i
  {
    if i == |nals| then []
    else PiecesOfNal(nals[i], i + 1 == |nals|, i < startupNals) + PiecesFrom(nals, i + 1, startupNals)
  }

  function PiecePayloads(pieces: seq<Piece>): seq<seq<byte>> {
    seq(|pieces|, k requires 0 <= k < |pieces| => pieces[k].payload)
  }

  lemma PiecePayloadsOf(ps: seq<seq<byte>>, lastNal: bool, startup: bool)
    ensures PiecePayloads(PiecesOf(ps, lastNal, startup)) == ps
    ensures |PiecesOf(ps, lastNal, startup)| == |ps|
  {
  }

  lemma PiecePayloadsConcat(xs: seq<Piece>, ys: seq<Piece>)
    ensures PiecePayloads(xs + ys) == PiecePayloads(xs) + PiecePayloads(ys)
  {
  }

  // The packets of a call carry the payloads of its NAL units.
  lemma {:induction false} PiecesCarryPayloads(nals: seq<seq<byte>>, i: nat, startupNals: nat)
    requires i <= |nals|
    ensures PiecePayloads(PiecesFrom(nals, i, startupNals)) == PayloadsOf(nals[i..])
    decreases |nals| - i
  {
    hide Payloads, PiecesOf, PiecePayloads;
    if i < |nals| {
      PiecesCarryPayloads(nals, i + 1, startupNals);
      assert nals[i..][1..] == nals[i + 1..];
      PiecePayloadsOf(Payloads(nals[i]), i + 1 == |nals|, i < startupNals);
      PiecePayloadsConcat(PiecesOfNal(nals[i], i + 1 == |nals|, i < startupNals), PiecesFrom(nals, i + 1, startupNals));
    } else {
      assert nals[i..] == [];
      PiecePayloadsOf([], true, false);
      assert PiecesOf([], true, false) == [];
    }
  }

  lemma SomePayload(nal: seq<byte>)
    requires nal != []
    ensures Payloads(nal) != []
  {
  }

  // Of the packets of a call exactly the last one is marked.
  lemma {:induction false} OnlyLastIsMarked(nals: seq<seq<byte>>, i: nat, startupNals: nat, k: nat)
    requires i <= |nals| && (forall n :: n in nals ==> n != [])
    requires k < |PiecesFrom(nals, i, startupNals)|
    ensures PiecesFrom(nals, i, startupNals)[k].marker <==> k + 1 == |PiecesFrom(nals, i, startupNals)|
    decreases |nals| - i
  {
    hide Payloads;
    var head := PiecesOfNal(nals[i], i + 1 == |nals|, i < startupNals);
    if i + 1 < |nals| {
      assert nals[i + 1] in nals;
      SomePayload(nals[i + 1]);
    }
    if k >= |head| {
      OnlyLastIsMarked(nals, i + 1, startupNals, k - |head|);
    }
  }

  // The startup packets are exactly those of the first `startupNals` NAL units.
  lemma {:induction false} StartupIsPrefix(nals: seq<seq<byte>>, i: nat, startupNals: nat, k: nat)
    requires i <= |nals| && startupNals <= |nals| && k < |PiecesFrom(nals, i, startupNals)|
    ensures PiecesFrom(nals, i, startupNals)[k].startup <==>
            k < |PayloadsOf(nals[i..Max(i, startupNals)])|
    decreases |nals| - i
  {
    var head := PiecesOfNal(nals[i], i + 1 == |nals|, i < startupNals);
    assert |head| == |Payloads(nals[i])|;
    if i < startupNals {
      assert nals[i..startupNals][1..] == nals[i + 1..startupNals];
    } else {
      assert nals[i..i] == [];
      assert nals[i + 1..Max(i + 1, startupNals)] == [];
    }
    if k >= |head| {
      StartupIsPrefix(nals, i + 1, startupNals, k - |head|);
    }
  }
}
