/** `is_whole_packet_present` predicts the reader. */
module Lookahead {
  import opened Bits
  import opened Ogg
  import opened Lacing

  /** Along a segment table from entry `i` with `p` the position of its segment: the entry that ends
      the packet, or the size of the table, and the position behind the segments passed. */
  function Walk(table: seq<byte>, i: nat, p: nat): (nat, nat)
    decreases |table| - i
  {
    if i >= |table| then (i, p)
    else if table[i] < 255 then (i, p + table[i])
    else Walk(table, i + 1, p + table[i])
  }

  lemma {:induction false} WalkForward(table: seq<byte>, i: nat, p: nat)
    ensures Walk(table, i, p).1 >= p
    ensures i <= |table| ==> Walk(table, i, p).0 <= |table|
    decreases |table| - i
  {
    if i < |table| && table[i] == 255 { WalkForward(table, i + 1, p + table[i]); }
  }

  datatype Finding = Present | Missing(error: Error)

  /** The second loop: from the page at `p`.  `first` says that no segment has been passed yet,
      `resync` that the decoder has no previous frame. */
  function WalkPages(data: seq<byte>, p: nat, first: bool, resync: bool): Finding
    requires p <= |data|
    decreases |data| - p
  {
    if p + 26 >= |data| then Missing(NeedMoreData)
    else if data[p..p + 4] != CAPTURE || data[p + 4] != 0 then Missing(InvalidStream)
    else if first && !resync && ContinuedFlag(data[p + 5]) then Missing(InvalidStream)
    else if !first && !ContinuedFlag(data[p + 5]) then Missing(InvalidStream)
    else
      var n, q := data[p + 26], p + 27;
      if q + n > |data| then Missing(NeedMoreData)
      else
        WalkForward(data[q..q + n], 0, q + n);
        var (i, p') := Walk(data[q..q + n], 0, q + n);
        if p' > |data| then Missing(NeedMoreData)
        else if i == n then WalkPages(data, p', false, resync)
        else Present
  }

  /** `is_whole_packet_present`. */
  function WholePacket(s: Stream, resync: bool): Finding
    requires Wf(s)
  {
    if s.nextSeg != -1 then
      WalkForward(s.segments[..s.segmentCount], s.nextSeg, s.pos);
      var (i, p) := Walk(s.segments[..s.segmentCount], s.nextSeg, s.pos);
      if p > |s.data| then Missing(NeedMoreData)
      else if i == s.segmentCount then WalkPages(s.data, p, false, resync)
      else Present
    else WalkPages(s.data, s.pos, true, resync)
  }

  /** The pages that the second loop visits have non-empty segment tables. */
  ghost predicate TablesNonEmpty(data: seq<byte>, p: nat)
    requires p <= |data|
    decreases |data| - p
  {
    p + 26 >= |data| ||
    (var n, q := data[p + 26], p + 27;
     n > 0 &&
     (q + n > |data| ||
      (WalkForward(data[q..q + n], 0, q + n);
       var (i, p') := Walk(data[q..q + n], 0, q + n);
       p' > |data| || i < n || TablesNonEmpty(data, p'))))
  }

  /** The same for all pages ahead of a decoder, its current page included. */
  ghost predicate PagesNonEmpty(s: Stream)
    requires Wf(s)
  {
    if s.nextSeg != -1 then
      s.nextSeg < s.segmentCount &&
      (WalkForward(s.segments[..s.segmentCount], s.nextSeg, s.pos);
       var (i, p) := Walk(s.segments[..s.segmentCount], s.nextSeg, s.pos);
       p > |s.data| || i < s.segmentCount || TablesNonEmpty(s.data, p))
    else TablesNonEmpty(s.data, s.pos)
  }

  /** A decoder in the middle of a packet, between two segments. */
  ghost predicate Between(s: Stream) {
    Wf(s) && !s.eof && s.bytesInSeg == 0 && !s.lastSeg
  }

  /** Draining ended with the packet, not with the data. */
  ghost predicate Complete(s: Stream) {
    !s.eof && s.lastSeg && s.bytesInSeg == 0
  }

  /** Opening segment `k` of the current page and reading through it. */
  lemma OpenAndPass(s: Stream) returns (t: Stream)
    requires Between(s) && 0 <= s.nextSeg < s.segmentCount
    requires s.pos + s.segments[s.nextSeg] <= |s.data|
    ensures Wf(t) && !t.eof && t.bytesInSeg == 0 && t.data == s.data && Drain(s).1 == Drain(t).1
    ensures t.segments == s.segments && t.segmentCount == s.segmentCount && t.error == s.error
    ensures t.pos == s.pos + s.segments[s.nextSeg] && t.lastSeg == (s.segments[s.nextSeg] < 255)
    ensures t.nextSeg == if s.nextSeg + 1 >= s.segmentCount then -1 else s.nextSeg + 1
  {
    hide Drain;
    var (len, s1) := OpenSegment(s);
    t := PastSegment(s1);
    DrainOpened(s, s1, len);
  }

  lemma DrainStops(s: Stream)
    requires Wf(s) && s.bytesInSeg == 0 && s.lastSeg
    ensures Drain(s) == ([], s)
  {
    DrainUnfold(s);
  }

  /** Reading on the current page does what the walk along its table predicts. */
  lemma {:induction false} DrainOnPage(s: Stream) returns (t: Stream)
    requires Between(s) && 0 <= s.nextSeg < s.segmentCount
    requires var (i, p) := Walk(s.segments[..s.segmentCount], s.nextSeg, s.pos); p <= |s.data|
    ensures Wf(t) && Drain(s).1 == Drain(t).1 && t.data == s.data && t.pos == Walk(s.segments[..s.segmentCount], s.nextSeg, s.pos).1
    ensures t.error == s.error
    ensures if Walk(s.segments[..s.segmentCount], s.nextSeg, s.pos).0 < s.segmentCount then Complete(t)
            else Between(t) && t.nextSeg == -1
    decreases s.segmentCount - s.nextSeg
  {
    hide Drain;
    var table := s.segments[..s.segmentCount];
    assert table[s.nextSeg] == s.segments[s.nextSeg];
    WalkForward(table, s.nextSeg + 1, s.pos + table[s.nextSeg]);
    t := OpenAndPass(s);
    if table[s.nextSeg] == 255 && t.nextSeg != -1 {
      t := DrainOnPage(t);
    }
  }

  /** A page head that the walk has checked is read without error. */
  lemma HeadChecked(s: Stream)
    requires Wf(s) && !s.eof && s.nextSeg == -1 && s.pos + 26 < |s.data|
    requires s.data[s.pos..s.pos + 4] == CAPTURE && s.data[s.pos + 4] == 0
    requires s.pos + 27 + s.data[s.pos + 26] <= |s.data|
    ensures var (ok, r) := StartPage(s);
            ok && HeadRead(s, r)
  {
    hide StartPageBody, Capture;
    var n := s.data[s.pos + 26];
    var c := s.data[s.pos..s.pos + 4];
    assert c[0] == s.data[s.pos] && c[1] == s.data[s.pos + 1] && c[2] == s.data[s.pos + 2] && c[3] == s.data[s.pos + 3];
    CaptureStep(s, 0);
    BodyStep(s.(pos := s.pos + 4), s.data[s.pos + 5], n, s.data[s.pos + 27..s.pos + 27 + n]);
  }

  ghost predicate HeadRead(s: Stream, r: Stream)
    requires s.pos + 26 < |s.data| && s.pos + 27 + s.data[s.pos + 26] <= |s.data|
  {
    var n := s.data[s.pos + 26];
    Wf(r) && !r.eof && r.data == s.data && r.pos == s.pos + 27 + n && r.pageFlag == s.data[s.pos + 5] &&
    r.nextSeg == 0 && r.segmentCount == n && r.segments[..n] == s.data[s.pos + 27..s.pos + 27 + n] &&
    r.lastSeg == s.lastSeg && r.bytesInSeg == s.bytesInSeg && r.error == s.error
  }

  /** Reading on over the next pages does what the walk over them predicts. */
  lemma {:induction false} DrainOverPages(s: Stream, resync: bool)
    requires Between(s) && s.nextSeg == -1
    requires WalkPages(s.data, s.pos, false, resync) == Present && TablesNonEmpty(s.data, s.pos)
    ensures Complete(Drain(s).1) && Drain(s).1.error == s.error
    decreases |s.data| - s.pos
  {
    hide Drain, StartPage, Walk;
    HeadChecked(s);
    var r := StartPage(s).1;
    SameDrain(s);
    var n, q := s.data[s.pos + 26], s.pos + 27;
    assert r.segments[..r.segmentCount] == s.data[q..q + n];
    WalkForward(s.data[q..q + n], 0, q + n);
    var t := DrainOnPage(r);
    if t.nextSeg == -1 && Between(t) { DrainOverPages(t, resync); } else { DrainStops(t); }
  }

  /** Between two pages, draining starts with the next page. */
  lemma SameDrain(s: Stream)
    requires Between(s) && s.nextSeg == -1 && StartPage(s).0 && Wf(StartPage(s).1) && ContinuedFlag(StartPage(s).1.pageFlag)
    requires StartPage(s).1.nextSeg == 0 && StartPage(s).1.bytesInSeg == 0 && !StartPage(s).1.lastSeg
    ensures Drain(s) == Drain(StartPage(s).1)
  {
    hide Drain, StartPage;
    var r := StartPage(s).1;
    DrainUnfold(s);
    DrainUnfold(r);
    assert NextSegment(s) == OpenSegment(r) == NextSegment(r);
  }

  /** The page that `maybe_start_packet` starts is the one the walk has checked. */
  lemma FirstHead(s: Stream, resync: bool)
    requires Wf(s) && !s.eof && s.nextSeg == -1
    requires WalkPages(s.data, s.pos, true, resync) == Present
    ensures s.pos + 26 < |s.data| && s.pos + 27 + s.data[s.pos + 26] <= |s.data|
    ensures StartPage(s).0 && HeadRead(s, StartPage(s).1)
    ensures var (ok, t) := MaybeStartPacket(s);
            !t.eof && ok == !ContinuedFlag(s.data[s.pos + 5]) &&
            (ok ==> t == StartPage(s).1.(lastSeg := false, bytesInSeg := 0))
  {
    hide StartPageBody, Walk, TablesNonEmpty;
    HeadChecked(s);
    var c := s.data[s.pos..s.pos + 4];
    assert c[0] == s.data[s.pos];
    CaptureWf(s, 0);
    assert Capture(s, 0) == Capture(Get8(s).1, 1);
  }

  /** The lookahead is sound: when it finds the whole packet, starting and reading that packet
      never meets the end of the data; and unless the decoder resynchronises, it does start. */
  lemma LookaheadSound(s: Stream, resync: bool)
    requires Wf(s) && !s.eof && PagesNonEmpty(s)
    requires WholePacket(s, resync) == Present
    ensures var (ok, t) := MaybeStartPacket(s);
            Wf(t) && !t.eof && (!resync ==> ok) && (ok ==> Complete(Drain(t).1) && Drain(t).1.error == s.error)
  {
    hide Drain, StartPage, Walk, MaybeStartPacket;
    if s.nextSeg == -1 {
      FirstHead(s, resync);
      MaybeWf(s);
      if MaybeStartPacket(s).0 { LookaheadFirst(s, MaybeStartPacket(s).1, resync); }
    } else {
      StartHere(s);
      LookaheadHere(MaybeStartPacket(s).1, resync);
    }
  }

  lemma MaybeWf(s: Stream)
    requires Wf(s)
    ensures Wf(MaybeStartPacket(s).1)
  {
    hide Capture, StartPageBody;
    if s.nextSeg == -1 {
      var s1 := Get8(s).1;
      CaptureWf(s1, 1);
      if Capture(s1, 1).0 { StartPageBodyWf(Capture(s1, 1).1); }
    }
  }

  lemma StartHere(s: Stream)
    requires Wf(s) && s.nextSeg != -1
    ensures MaybeStartPacket(s) == (true, s.(lastSeg := false, bytesInSeg := 0))
  {}

  lemma LookaheadHere(t: Stream, resync: bool)
    requires Between(t) && t.nextSeg != -1 && PagesNonEmpty(t) && WholePacket(t, resync) == Present
    ensures Complete(Drain(t).1) && Drain(t).1.error == t.error
  {
    hide Drain, StartPage, Walk;
    WalkForward(t.segments[..t.segmentCount], t.nextSeg, t.pos);
    var u := DrainOnPage(t);
    if Between(u) { DrainOverPages(u, resync); } else { DrainStops(u); }
  }

  lemma LookaheadFirst(s: Stream, t: Stream, resync: bool)
    requires Wf(s) && s.nextSeg == -1 && Between(t) && s.pos + 26 < |s.data| && s.pos + 27 + s.data[s.pos + 26] <= |s.data|
    requires exists r :: HeadRead(s, r) && t == r.(lastSeg := false, bytesInSeg := 0)
    requires PagesNonEmpty(s) && WholePacket(s, resync) == Present
    ensures Complete(Drain(t).1) && Drain(t).1.error == t.error
  {
    hide Drain, StartPage, Walk;
    var n, q := s.data[s.pos + 26], s.pos + 27;
    assert t.segments[..n] == s.data[q..q + n];
    WalkForward(s.data[q..q + n], 0, q + n);
    var u := DrainOnPage(t);
    if Between(u) { DrainOverPages(u, resync); } else { DrainStops(u); }
  }

  // ---------------------------------------------------------------- nothing is missed

  ghost predicate Bad(s: Stream) { s.eof || s.error != NoError }

  /** The packet was read whole: the data did not end, no page was wrong, and its last segment is used up. */
  ghost predicate Finished(s: Stream) { Complete(s) && !Bad(s) }

  lemma StartPageBodyBad(s: Stream)
    requires Wf(s) && s.nextSeg == -1
    ensures Bad(s) || !StartPageBody(s).0 ==> Bad(StartPageBody(s).1)
  {
    hide PageFields, GetTable;
    var s1 := Get8(s).1;
    PageFieldsWf(s1);
    var (count, s4) := PageFields(s1);
    TableWf(s4.(segmentCount := count), count);
  }

  /** What went wrong stays wrong; a page that does not start is an error. */
  lemma StartPageBad(s: Stream)
    requires Wf(s) && s.nextSeg == -1
    ensures Bad(s) || !StartPage(s).0 ==> Bad(StartPage(s).1)
  {
    hide Capture, StartPageBody;
    CaptureWf(s, 0);
    var (ok, s1) := Capture(s, 0);
    if ok { StartPageBodyBad(s1); }
  }

  lemma Get8PacketBad(s: Stream)
    requires Wf(s) && Bad(s)
    ensures Bad(Get8Packet(s).1)
  {
    hide StartPage;
    if s.nextSeg == -1 {
      StartPageWf(s);
      StartPageBad(s);
    }
  }

  lemma {:induction false} DrainBad(s: Stream)
    requires Wf(s) && Bad(s)
    ensures Bad(Drain(s).1)
    decreases |s.data| - s.pos, SegmentsLeft(s), s.bytesInSeg
  {
    hide Get8Packet, Drain, Bad;
    DrainUnfold(s);
    Get8PacketWf(s);
    Get8PacketBad(s);
    if Get8Packet(s).0 != EOP { DrainBad(Get8Packet(s).1); }
  }

  /** A segment that reaches beyond the data. */
  lemma {:induction false} SegmentPastEnd(s: Stream)
    requires Wf(s) && s.pos + s.bytesInSeg > |s.data|
    ensures Bad(Drain(s).1)
    decreases s.bytesInSeg
  {
    hide Drain;
    if s.pos < |s.data| {
      DrainByte(s);
      SegmentPastEnd(s.(pos := s.pos + 1, bytesInSeg := s.bytesInSeg - 1));
    } else {
      DrainUnfold(s);
      DrainBad(Get8Packet(s).1);
    }
  }

  lemma OpenPastEnd(s: Stream)
    requires Between(s) && 0 <= s.nextSeg < s.segmentCount && s.pos + s.segments[s.nextSeg] > |s.data|
    ensures Bad(Drain(s).1)
  {
    hide Drain;
    var s1 := OpenSegment(s).1;
    DrainUnfold(s);
    DrainUnfold(s1);
    SegmentPastEnd(s1);
  }

  lemma CaptureByte(s: Stream, k: nat)
    requires k < 4 && Capture(s, k).0
    ensures s.pos < |s.data| && s.data[s.pos] == CAPTURE[k] && Capture(s, k) == Capture(s.(pos := s.pos + 1), k + 1)
  {}

  lemma CaptureSees(s: Stream)
    requires Capture(s, 0).0
    ensures s.pos + 4 <= |s.data| && s.data[s.pos..s.pos + 4] == CAPTURE
    ensures Capture(s, 0) == (true, s.(pos := s.pos + 4))
  {
    hide Capture;
    CaptureByte(s, 0);
    CaptureByte(s.(pos := s.pos + 1), 1);
    CaptureByte(s.(pos := s.pos + 2), 2);
    CaptureByte(s.(pos := s.pos + 3), 3);
    assert |CAPTURE| == 4;
    CaptureDone(s.(pos := s.pos + 4));
    FourBytes(s.data, s.pos, CAPTURE);
  }

  lemma FourBytes(data: seq<byte>, p: nat, c: seq<byte>)
    requires p + 4 <= |data| && |c| == 4
    requires data[p] == c[0] && data[p + 1] == c[1] && data[p + 2] == c[2] && data[p + 3] == c[3]
    ensures data[p..p + 4] == c
  {}

  lemma CaptureDone(s: Stream)
    ensures Capture(s, 4) == (true, s)
  {}

  lemma BodySees(s: Stream)
    requires Wf(s) && s.nextSeg == -1 && StartPageBody(s).0 && !StartPageBody(s).1.eof
    ensures s.pos + 22 < |s.data| && s.data[s.pos] == 0 && s.pos + 23 + s.data[s.pos + 22] <= |s.data|
  {}

  /** A page that starts without meeting the end of the data has the head that the walk looks for. */
  lemma HeadFits(s: Stream)
    requires Wf(s) && s.nextSeg == -1 && StartPage(s).0 && !StartPage(s).1.eof
    ensures s.pos + 26 < |s.data| && s.data[s.pos..s.pos + 4] == CAPTURE && s.data[s.pos + 4] == 0
    ensures s.pos + 27 + s.data[s.pos + 26] <= |s.data|
  {
    hide Capture, StartPageBody;
    CaptureWf(s, 0);
    CaptureSees(s);
    BodySees(Capture(s, 0).1);
  }

  lemma {:induction false} ReadOnPage(s: Stream)
    requires Between(s) && 0 <= s.nextSeg < s.segmentCount && Finished(Drain(s).1)
    ensures Walk(s.segments[..s.segmentCount], s.nextSeg, s.pos).1 <= |s.data|
    decreases s.segmentCount - s.nextSeg
  {
    hide Drain;
    var table := s.segments[..s.segmentCount];
    assert table[s.nextSeg] == s.segments[s.nextSeg];
    if s.pos + table[s.nextSeg] > |s.data| { OpenPastEnd(s); }
    var t := OpenAndPass(s);
    if table[s.nextSeg] == 255 && t.nextSeg != -1 { ReadOnPage(t); }
  }

  /** A packet that is read whole over a page boundary goes on with a page that the walk accepts. */
  lemma NextPageFits(s: Stream)
    requires Between(s) && s.nextSeg == -1 && Finished(Drain(s).1)
    ensures s.pos + 26 < |s.data| && s.data[s.pos..s.pos + 4] == CAPTURE && s.data[s.pos + 4] == 0
    ensures s.pos + 27 + s.data[s.pos + 26] <= |s.data| && ContinuedFlag(s.data[s.pos + 5])
    ensures StartPage(s).0 && HeadRead(s, StartPage(s).1) && Drain(StartPage(s).1) == Drain(s)
  {
    hide Drain, StartPage;
    var (ok, r) := StartPage(s);
    StartPageWf(s);
    StartPageBad(s);
    if !ok || !ContinuedFlag(r.pageFlag) { DrainUnfold(s); }
    SameDrain(s);
    if Bad(r) { DrainBad(r); }
    HeadFits(s);
    HeadChecked(s);
  }

  lemma {:induction false} ReadOverPages(s: Stream, resync: bool)
    requires Between(s) && s.nextSeg == -1 && TablesNonEmpty(s.data, s.pos) && Finished(Drain(s).1)
    ensures WalkPages(s.data, s.pos, false, resync) == Present
    decreases |s.data| - s.pos
  {
    hide Drain, StartPage, Walk;
    NextPageFits(s);
    var r := StartPage(s).1;
    var n, q := s.data[s.pos + 26], s.pos + 27;
    assert r.segments[..r.segmentCount] == s.data[q..q + n];
    WalkForward(s.data[q..q + n], 0, q + n);
    ReadOnPage(r);
    var u := DrainOnPage(r);
    if Between(u) { ReadOverPages(u, resync); }
  }

  lemma MaybeIsStart(s: Stream)
    requires Wf(s) && s.nextSeg == -1 && MaybeStartPacket(s).0
    ensures StartPage(s).0 && !ContinuedFlag(StartPage(s).1.pageFlag)
    ensures MaybeStartPacket(s).1 == StartPage(s).1.(lastSeg := false, bytesInSeg := 0)
  {
    hide StartPageBody;
    CaptureWf(s, 0);
    assert Capture(s, 0) == Capture(Get8(s).1, 1);
  }

  lemma ReadFirst(s: Stream, resync: bool)
    requires Wf(s) && !s.eof && s.nextSeg == -1 && TablesNonEmpty(s.data, s.pos) && MaybeStartPacket(s).0
    requires Wf(MaybeStartPacket(s).1) && Finished(Drain(MaybeStartPacket(s).1).1)
    ensures WholePacket(s, resync) == Present
  {
    hide Drain, StartPage, Walk, MaybeStartPacket;
    MaybeIsStart(s);
    var t := MaybeStartPacket(s).1;
    if Bad(t) { DrainBad(t); }
    HeadFits(s);
    HeadChecked(s);
    var n, q := s.data[s.pos + 26], s.pos + 27;
    assert t.segments[..t.segmentCount] == s.data[q..q + n];
    WalkForward(s.data[q..q + n], 0, q + n);
    ReadOnPage(t);
    var u := DrainOnPage(t);
    if Between(u) { ReadOverPages(u, resync); }
  }

  lemma ReadHere(t: Stream, resync: bool)
    requires Between(t) && t.nextSeg != -1 && PagesNonEmpty(t) && Finished(Drain(t).1)
    ensures WholePacket(t, resync) == Present
  {
    hide Drain, Walk;
    WalkForward(t.segments[..t.segmentCount], t.nextSeg, t.pos);
    ReadOnPage(t);
    var u := DrainOnPage(t);
    if Between(u) { ReadOverPages(u, resync); }
  }

  /** The lookahead is exact: once the packet has started, it finds the packet whole exactly if reading it ends with
      the packet, and not with the data or on a wrong page; and without resynchronisation it finds no packet that
      does not start. */
  lemma LookaheadExact(s: Stream, resync: bool)
    requires Wf(s) && !Bad(s) && PagesNonEmpty(s)
    ensures var (ok, t) := MaybeStartPacket(s);
            Wf(t) && (ok ==> (WholePacket(s, resync) == Present <==> Finished(Drain(t).1))) &&
            (!resync ==> (WholePacket(s, resync) == Present <==> ok && Finished(Drain(t).1)))
  {
    hide Drain, StartPage, Walk, MaybeStartPacket, WholePacket;
    MaybeWf(s);
    var (ok, t) := MaybeStartPacket(s);
    if WholePacket(s, resync) == Present {
      LookaheadSound(s, resync);
    } else if ok && Finished(Drain(t).1) {
      ReadStarted(s, resync);
    }
  }

  lemma ReadStarted(s: Stream, resync: bool)
    requires Wf(s) && !Bad(s) && PagesNonEmpty(s) && MaybeStartPacket(s).0
    requires Wf(MaybeStartPacket(s).1) && Finished(Drain(MaybeStartPacket(s).1).1)
    ensures WholePacket(s, resync) == Present
  {
    hide Drain, StartPage, Walk, MaybeStartPacket;
    if s.nextSeg == -1 {
      ReadFirst(s, resync);
    } else {
      StartHere(s);
      ReadHere(MaybeStartPacket(s).1, resync);
    }
  }
}
