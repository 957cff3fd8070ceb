/** What makes a page or a packet start or fail, read off the bytes of the stream; and what more data can change about
    the lookahead of the push interface. */
module OggOutcomes {
  import opened Bits
  import opened Lacing
  import opened Lookahead
  import opened Ogg

  // ---------------------------------------------------------------- pages

  /** The capture pattern of RFC 3533, section 6. */
  predicate PatternAt(data: seq<byte>, p: nat) {
    p + 4 <= |data| &&
    data[p] == 'O' as int && data[p + 1] == 'g' as int && data[p + 2] == 'g' as int && data[p + 3] == 'S' as int
  }

  lemma CaptureBytes()
    ensures |CAPTURE| == 4 && CAPTURE[0] == 'O' as int && CAPTURE[1] == 'g' as int && CAPTURE[2] == 'g' as int && CAPTURE[3] == 'S' as int
  {}

  lemma CaptureByteIs(s: Stream, k: nat)
    requires k < 4
    ensures if s.pos < |s.data| && s.data[s.pos] == CAPTURE[k] then Capture(s, k) == Capture(s.(pos := s.pos + 1), k + 1)
            else !Capture(s, k).0
  {}

  lemma CaptureOutcome(s: Stream)
    ensures Capture(s, 0).0 <==> PatternAt(s.data, s.pos)
    ensures Capture(s, 0).0 ==> Capture(s, 0).1 == s.(pos := s.pos + 4)
  {
    hide Capture, CAPTURE;
    CaptureBytes();
    CaptureByteIs(s, 0);
    CaptureByteIs(s.(pos := s.pos + 1), 1);
    CaptureByteIs(s.(pos := s.pos + 2), 2);
    CaptureByteIs(s.(pos := s.pos + 3), 3);
    CaptureDone(s.(pos := s.pos + 4));
  }

  lemma FieldsOutcome(s: Stream)
    requires s.pos <= |s.data|
    ensures var (count, r) := PageFields(s);
            var p, n := s.pos, |s.data|;
            r.data == s.data && r.error == s.error && r.segments == s.segments && r.segmentCount == s.segmentCount &&
            if p + 21 < n then count == s.data[p + 21] && r.pos == p + 22 && r.pageFlag == s.data[p] && r.eof == s.eof
            else count == 0 && r.pos == n
  {}

  lemma TableOutcome(s: Stream, n: nat)
    requires n <= 255 && |s.segments| == 255
    ensures var (ok, r) := GetTable(s, n);
            ok == (s.pos + n <= |s.data|) && r.error == s.error && r.pageFlag == s.pageFlag && r.segmentCount == s.segmentCount &&
            (ok ==> r.pos == s.pos + n && r.eof == s.eof && |r.segments| == 255 && r.segments[..n] == s.data[s.pos..s.pos + n])
  {}

  lemma BodyOutcome(s: Stream)
    requires Wf(s) && s.nextSeg == -1
    ensures var (ok, r) := StartPageBody(s);
            var p, n := s.pos, |s.data|;
            ok == ((p < n ==> s.data[p] == 0) && (p + 22 < n ==> p + 23 + s.data[p + 22] <= n)) &&
            r.error == if ok then s.error else if p < n && s.data[p] != 0 then InvalidVersion else UnexpectedEof
    ensures StartPageBody(s).0 && s.pos + 22 < |s.data| ==> HeadOf(s.data, s.pos, StartPageBody(s).1) && StartPageBody(s).1.eof == s.eof
  {
    hide PageFields, GetTable;
    var s1 := Get8(s).1;
    FieldsOutcome(s1);
    var (count, s3) := PageFields(s1);
    TableOutcome(s3.(segmentCount := count), count);
  }

  /** The flags and the segment table of a page head, from its version on; the state is behind them. */
  ghost predicate HeadOf(data: seq<byte>, p: nat, r: Stream) {
    p + 22 < |data| && p + 23 + data[p + 22] <= |data| && r.pos == p + 23 + data[p + 22] && r.pageFlag == data[p + 1] &&
    r.segmentCount == data[p + 22] <= |r.segments| && r.segments[..r.segmentCount] == data[p + 23..r.pos]
  }

  /** A page starts exactly if its head is right as far as the data reach: the pattern whole, the version 0, and the
      segment table inside the data.  What is wrong first is the error. */
  lemma PageOutcome(s: Stream)
    requires Wf(s) && s.nextSeg == -1
    ensures var (ok, r) := StartPage(s);
            var p, n := s.pos, |s.data|;
            ok == (PatternAt(s.data, p) && (p + 4 < n ==> s.data[p + 4] == 0) && (p + 26 < n ==> p + 27 + s.data[p + 26] <= n)) &&
            r.error == if ok then s.error
                       else if !PatternAt(s.data, p) then MissingCapturePattern
                       else if p + 4 < n && s.data[p + 4] != 0 then InvalidVersion
                       else UnexpectedEof
    ensures StartPage(s).0 && s.pos + 26 < |s.data| ==> HeadOf(s.data, s.pos + 4, StartPage(s).1) && StartPage(s).1.eof == s.eof
  {
    hide Capture, StartPageBody, HeadOf;
    CaptureWf(s, 0);
    CaptureOutcome(s);
    if Capture(s, 0).0 { BodyOutcome(s.(pos := s.pos + 4)); }
  }

  /** A packet starts with a page that is not flagged as continued, which is the lowest bit of its flags. */
  lemma PacketOutcome(s: Stream)
    requires Wf(s) && s.nextSeg == -1
    ensures var (ok, r) := StartPage(s);
            StartPacket(s).0 == (ok && r.pageFlag % 2 == 0) &&
            StartPacket(s).1.error == if ok && r.pageFlag % 2 == 1 then ContinuedFlagInvalid else r.error
  {
    hide StartPage;
  }

  /** Both ways to start a packet do the same, but for the end of the data, where one of them is silent. */
  lemma MaybeOutcome(s: Stream)
    requires Wf(s) && s.nextSeg == -1
    ensures var (ok, t) := MaybeStartPacket(s);
            if s.eof || s.pos == |s.data| then !ok && t.eof && t.error == s.error
            else ok == StartPacket(s).0 && t.error == StartPacket(s).1.error && (ok ==> t == StartPacket(s).1)
  {
    hide StartPageBody, Capture;
    if !s.eof && s.pos < |s.data| {
      CaptureBytes();
      CaptureFirst(s);
      CaptureWf(s, 0);
      CaptureWf(Get8(s).1, 1);
      if Capture(s, 0).0 { StartPageBodyWf(Capture(s, 0).1); }
    }
  }

  lemma CaptureFirst(s: Stream)
    requires s.pos < |s.data|
    ensures if s.data[s.pos] == CAPTURE[0] then Capture(s, 0) == Capture(Get8(s).1, 1) else !Capture(s, 0).0
    ensures s.data[s.pos] != CAPTURE[0] ==> Capture(s, 0).1.error == s.error
  {}

  // ---------------------------------------------------------------- where a packet ends

  lemma EndOutcome(s: Stream)
    requires Wf(s) && Get8Packet(s).0 == EOP
    ensures var t := Get8Packet(s).1; t.bytesInSeg == 0 && (t.lastSeg || t.error == ContinuedFlagInvalid)
  {
    hide StartPage;
    if s.nextSeg == -1 { StartPageWf(s); }
  }

  /** Reading a packet to its end leaves no byte of the segment, and stops behind the last segment, or with an error on a
      page that does not go on with the packet. */
  lemma {:induction false} DrainOutcome(s: Stream)
    requires Wf(s)
    ensures var t := Drain(s).1; t.bytesInSeg == 0 && (t.lastSeg || t.error == ContinuedFlagInvalid)
    decreases |s.data| - s.pos, SegmentsLeft(s), s.bytesInSeg
  {
    hide Get8Packet, Drain;
    DrainUnfold(s);
    Get8PacketWf(s);
    if Get8Packet(s).0 == EOP { EndOutcome(s); } else { DrainOutcome(Get8Packet(s).1); }
  }

  // ---------------------------------------------------------------- the lookahead and more data

  ghost predicate Settled(f: Finding) { f != Missing(NeedMoreData) }

  lemma PageInside(data: seq<byte>, more: seq<byte>, p: nat)
    requires p + 26 < |data|
    ensures var all := data + more;
            all[p..p + 4] == data[p..p + 4] && all[p + 4] == data[p + 4] && all[p + 5] == data[p + 5] && all[p + 26] == data[p + 26]
    ensures var q, n := p + 27, data[p + 26]; q + n <= |data| ==> (data + more)[q..q + n] == data[q..q + n]
  {}

  lemma {:induction false} PagesStable(data: seq<byte>, more: seq<byte>, p: nat, first: bool, resync: bool)
    requires p <= |data| && Settled(WalkPages(data, p, first, resync))
    ensures WalkPages(data + more, p, first, resync) == WalkPages(data, p, first, resync)
    decreases |data| - p
  {
    hide Walk;
    PageInside(data, more, p);
    var n, q := data[p + 26], p + 27;
    if q + n <= |data| {
      WalkForward(data[q..q + n], 0, q + n);
      var (i, p') := Walk(data[q..q + n], 0, q + n);
      if p' <= |data| && i == n && Settled(WalkPages(data, p', false, resync)) {
        PagesStable(data, more, p', false, resync);
      }
    }
  }

  /** Where the lookahead does not ask for more data, more data change nothing. */
  lemma LookaheadStable(s: Stream, more: seq<byte>, resync: bool)
    requires Wf(s) && Settled(WholePacket(s, resync))
    ensures WholePacket(s.(data := s.data + more), resync) == WholePacket(s, resync)
  {
    hide Walk, WalkPages;
    if s.nextSeg == -1 {
      PagesStable(s.data, more, s.pos, true, resync);
    } else {
      var table := s.segments[..s.segmentCount];
      WalkForward(table, s.nextSeg, s.pos);
      var (i, p) := Walk(table, s.nextSeg, s.pos);
      if p <= |s.data| && i == s.segmentCount { PagesStable(s.data, more, p, false, resync); }
    }
  }

  function Zeros(k: nat): seq<byte> { seq(k, _ => 0) }

  /** More than two pages. */
  const ENOUGH: nat := 70000

  lemma {:induction false} WalkBound(table: seq<byte>, i: nat, p: nat)
    requires i <= |table|
    ensures p <= Walk(table, i, p).1 <= p + 255 * (|table| - i)
    decreases |table| - i
  {
    if i < |table| { WalkBound(table, i + 1, p + table[i]); }
  }

  /** No page starts among zeros. */
  lemma ZerosSettle(data: seq<byte>, p: nat, resync: bool)
    requires |data| <= p <= |data| + ENOUGH - 100
    ensures Settled(WalkPages(data + Zeros(ENOUGH), p, false, resync))
  {
    hide Walk;
    var all := data + Zeros(ENOUGH);
    var c := all[p..p + 4];
    assert c[0] == all[p] == 0;
    CaptureBytes();
  }

  lemma {:induction false} PagesSettle(data: seq<byte>, p: nat, first: bool, resync: bool)
    requires p <= |data|
    ensures Settled(WalkPages(data + Zeros(ENOUGH), p, first, resync))
    decreases |data| - p
  {
    hide Walk, Zeros;
    var all := data + Zeros(ENOUGH);
    assert |all| == |data| + ENOUGH by { ZerosSize(ENOUGH); }
    var n, q := all[p + 26], p + 27;
    WalkForward(all[q..q + n], 0, q + n);
    WalkBound(all[q..q + n], 0, q + n);
    var p' := Walk(all[q..q + n], 0, q + n).1;
    if p' <= |data| { PagesSettle(data, p', false, resync); } else { ZerosSettle(data, p', resync); }
  }

  lemma ZerosSize(k: nat)
    ensures |Zeros(k)| == k
  {}

  /** Where it asks for more data, enough further bytes settle the matter. */
  lemma LookaheadSettles(s: Stream, resync: bool)
    requires Wf(s)
    ensures exists more :: Settled(WholePacket(s.(data := s.data + more), resync))
  {
    hide Walk, WalkPages, Zeros;
    var t := s.(data := s.data + Zeros(ENOUGH));
    ZerosSize(ENOUGH);
    if s.nextSeg == -1 {
      PagesSettle(s.data, s.pos, true, resync);
    } else {
      var table := s.segments[..s.segmentCount];
      WalkForward(table, s.nextSeg, s.pos);
      WalkBound(table, s.nextSeg, s.pos);
      var p := Walk(table, s.nextSeg, s.pos).1;
      if p <= |s.data| { PagesSettle(s.data, p, false, resync); } else { ZerosSettle(s.data, p, resync); }
    }
    assert Settled(WholePacket(t, resync));
  }
}
