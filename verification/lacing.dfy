/** Ogg lacing (RFC 3533) and the packet reader. */
module Lacing {
  import opened Bits
  import opened Ogg

  // ---------------------------------------------------------------- packets on pages

  /** The lacing values of a packet of `n` bytes: as many 255s as fit and a last value below 255. */
  function Lace(n: nat): seq<byte> {
    if n < 255 then [n] else [255] + Lace(n - 255)
  }

  function LaceAll(packets: seq<seq<byte>>): seq<byte> {
    if packets == [] then [] else Lace(|packets[0]|) + LaceAll(packets[1..])
  }

  function Join(packets: seq<seq<byte>>): seq<byte> {
    if packets == [] then [] else packets[0] + Join(packets[1..])
  }

  /** A page: its flags, the 20 bytes of header that the decoder skips, the segment table and the segments. */
  datatype PageData = Page(flags: byte, header: seq<byte>, table: seq<byte>, body: seq<byte>)

  /** Pages have a non-empty segment table, and their body is made of the segments it lists. */
  type Page = p: PageData | |p.header| == 20 && 1 <= |p.table| <= 255 && |p.body| == Sum(p.table)
    witness Page(0, [0, 0, 0, 0, 0, 0, 0, 0, 0, 0, 0, 0, 0, 0, 0, 0, 0, 0, 0, 0], [0], [])

  function Sum(table: seq<byte>): nat {
    if table == [] then 0 else table[0] + Sum(table[1..])
  }

  function PageHead(p: Page): (h: seq<byte>)
    ensures |h| == 27
  {
    CAPTURE + [0, p.flags] + p.header + [|p.table|]
  }

  function PageBytes(p: Page): seq<byte> {
    PageHead(p) + p.table + p.body
  }

  function StreamBytes(pages: seq<Page>): seq<byte> {
    if pages == [] then [] else PageBytes(pages[0]) + StreamBytes(pages[1..])
  }

  function Tables(pages: seq<Page>): seq<byte> {
    if pages == [] then [] else pages[0].table + Tables(pages[1..])
  }

  function Bodies(pages: seq<Page>): seq<byte> {
    if pages == [] then [] else pages[0].body + Bodies(pages[1..])
  }

  function Last(table: seq<byte>): byte
    requires table != []
  {
    table[|table| - 1]
  }

  /** A page is flagged as continued exactly when the lacing value before it is 255. */
  ghost predicate FlagsOk(full: bool, pages: seq<Page>)
    decreases pages
  {
    pages == [] ||
    (ContinuedFlag(pages[0].flags) == full && FlagsOk(Last(pages[0].table) == 255, pages[1..]))
  }

  /** `pages` carry `packets`: their segments, split over the pages in any way, are the laced packets. */
  ghost predicate Carries(pages: seq<Page>, packets: seq<seq<byte>>) {
    FlagsOk(false, pages) && Tables(pages) == LaceAll(packets) && Bodies(pages) == Join(packets)
  }

  // ---------------------------------------------------------------- what lies ahead of the reader

  /** What is left to read, between two segments: the rest of the page and the pages after it;
      `full` says whether the last lacing value read was 255. */
  datatype Ahead = Ahead(table: seq<byte>, body: seq<byte>, pages: seq<Page>, full: bool)

  ghost predicate Sees(s: Stream, a: Ahead) {
    Wf(s) && !s.eof && s.bytesInSeg == 0 &&
    s.data[s.pos..] == a.body + StreamBytes(a.pages) && |a.body| == Sum(a.table) &&
    (if a.table == [] then s.nextSeg == -1
     else 0 <= s.nextSeg < s.segmentCount && a.table == s.segments[s.nextSeg..s.segmentCount]) &&
    FlagsOk(if a.table == [] then a.full else Last(a.table) == 255, a.pages)
  }

  function Values(a: Ahead): seq<byte> { a.table + Tables(a.pages) }

  function Body(a: Ahead): seq<byte> { a.body + Bodies(a.pages) }

  /** The state after the bytes of the open segment have been read. */
  function PastSegment(s: Stream): Stream {
    s.(pos := s.pos + s.bytesInSeg, bytesInSeg := 0)
  }

  lemma Prepend<T>(b: T, tail: seq<T>, rest: seq<T>)
    ensures [b] + (tail + rest) == ([b] + tail) + rest
  {}

  lemma SliceFirst<T>(s: seq<T>, i: nat, n: nat)
    requires 0 < n && i + n <= |s|
    ensures s[i..i + n] == [s[i]] + s[i + 1..i + n]
  {}

  /** One byte of an open segment. */
  lemma DrainByte(s: Stream)
    requires Wf(s) && s.bytesInSeg > 0 && s.pos < |s.data|
    ensures var t := s.(pos := s.pos + 1, bytesInSeg := s.bytesInSeg - 1);
            Wf(t) && PastSegment(t) == PastSegment(s) && Drain(s) == ([s.data[s.pos]] + Drain(t).0, Drain(t).1)
  {
    hide NextSegment, Drain;
    DrainUnfold(s);
  }

  /** Reading the bytes of an open segment. */
  lemma {:induction false} DrainSegment(s: Stream)
    requires Wf(s) && s.pos + s.bytesInSeg <= |s.data|
    ensures Wf(PastSegment(s))
    ensures Drain(s) == (s.data[s.pos..s.pos + s.bytesInSeg] + Drain(PastSegment(s)).0, Drain(PastSegment(s)).1)
    decreases s.bytesInSeg
  {
    hide Drain;
    if s.bytesInSeg > 0 {
      var t := s.(pos := s.pos + 1, bytesInSeg := s.bytesInSeg - 1);
      DrainByte(s);
      DrainSegment(t);
      SliceFirst(s.data, s.pos, s.bytesInSeg);
      Prepend(s.data[s.pos], s.data[t.pos..t.pos + t.bytesInSeg], Drain(PastSegment(s)).0);
    } else {
      assert PastSegment(s) == s && s.data[s.pos..s.pos] == [];
      assert [] + Drain(s).0 == Drain(s).0;
    }
  }

  lemma SplitBody(data: seq<byte>, pos: nat, body: seq<byte>, rest: seq<byte>, n: nat)
    requires pos <= |data| && data[pos..] == body + rest && n <= |body|
    ensures pos + n <= |data| && data[pos..pos + n] == body[..n] && data[pos + n..] == body[n..] + rest
  {
    assert |data[pos..]| == |body| + |rest|;
    assert data[pos + n..] == data[pos..][n..];
    assert data[pos..pos + n] == data[pos..][..n];
  }

  /** Opening a segment of the current page. */
  lemma OpenStep(s: Stream, a: Ahead) returns (a': Ahead)
    requires Sees(s, a) && a.table != [] && !s.lastSeg
    ensures var (len, s1) := OpenSegment(s);
            len == a.table[0] && len <= |a.body| && s1.bytesInSeg == len && s1.lastSeg == (len < 255) && Wf(s1) &&
            s1.pos + len <= |s1.data| && s1.data[s1.pos..s1.pos + len] == a.body[..len] && s1.pos == s.pos &&
            a' == Ahead(a.table[1..], a.body[len..], a.pages, len == 255) && Sees(PastSegment(s1), a')
  {
    hide StreamBytes, FlagsOk;
    var len := a.table[0];
    a' := Ahead(a.table[1..], a.body[len..], a.pages, len == 255);
    SplitBody(s.data, s.pos, a.body, StreamBytes(a.pages), len);
    if a'.table != [] {
      assert Last(a'.table) == Last(a.table);
    } else {
      assert Last(a.table) == len;
    }
  }

  lemma HeadBytes(d: seq<byte>, p: Page, rest: seq<byte>)
    requires d == PageBytes(p) + rest
    ensures |d| >= 27 + |p.table|
    ensures d[0] == CAPTURE[0] && d[1] == CAPTURE[1] && d[2] == CAPTURE[2] && d[3] == CAPTURE[3]
    ensures d[4] == 0 && d[5] == p.flags && d[26] == |p.table|
    ensures d[27..27 + |p.table|] == p.table && d[27 + |p.table|..] == p.body + rest
  {
    var head := PageHead(p);
    assert d == head + (p.table + (p.body + rest));
    assert head[0] == d[0] && head[1] == d[1] && head[2] == d[2] && head[3] == d[3];
    assert head[4] == d[4] && head[5] == d[5] && head[26] == d[26];
  }

  /** Reading the head of a page. */
  lemma HeadStep(s: Stream, p: Page, rest: seq<byte>)
    requires Wf(s) && s.nextSeg == -1 && s.data[s.pos..] == PageBytes(p) + rest
    ensures var (ok, r) := StartPage(s);
            ok && r == s.(pos := s.pos + 27 + |p.table|, pageFlag := p.flags, segmentCount := |p.table|, nextSeg := 0,
                          segments := p.table + s.segments[|p.table|..]) &&
            r.pos <= |r.data| && r.data[r.pos..] == p.body + rest
  {
    hide PageBytes, Capture, StartPageBody, Sum;
    var d, n := s.data[s.pos..], |p.table|;
    HeadBytes(d, p, rest);
    Suffix(s.data, s.pos, 27, n);
    CaptureStep(s, 0);
    BodyStep(s.(pos := s.pos + 4), p.flags, n, p.table);
  }

  lemma Suffix(data: seq<byte>, pos: nat, m: nat, n: nat)
    requires pos + m + n <= |data|
    ensures forall i :: 0 <= i < m ==> data[pos..][i] == data[pos + i]
    ensures data[pos..][m..m + n] == data[pos + m..pos + m + n]
    ensures data[pos..][m + n..] == data[pos + m + n..]
  {}

  lemma {:induction false} CaptureStep(s: Stream, k: nat)
    requires k <= 4 && s.pos + (4 - k) <= |s.data|
    requires forall i :: k <= i < 4 ==> s.data[s.pos + i - k] == CAPTURE[i]
    ensures Capture(s, k) == (true, s.(pos := s.pos + (4 - k)))
    decreases 4 - k
  {
    if k < 4 { CaptureStep(s.(pos := s.pos + 1), k + 1); }
  }

  lemma BodyStep(s: Stream, flags: byte, n: nat, table: seq<byte>)
    requires Wf(s) && s.nextSeg == -1 && n <= 255 && |table| == n
    requires s.pos + 23 + n <= |s.data|
    requires s.data[s.pos] == 0 && s.data[s.pos + 1] == flags && s.data[s.pos + 22] == n
    requires s.data[s.pos + 23..s.pos + 23 + n] == table
    ensures StartPageBody(s) ==
            (true, s.(pos := s.pos + 23 + n, pageFlag := flags, segmentCount := n, nextSeg := 0, segments := table + s.segments[n..]))
  {}

  /** Going on to the next page. */
  lemma PageStep(s: Stream, a: Ahead) returns (a': Ahead)
    requires Sees(s, a) && a.table == [] && a.pages != []
    ensures var (ok, s1) := StartPage(s);
            ok && ContinuedFlag(s1.pageFlag) == a.full && s1.lastSeg == s.lastSeg &&
            a' == Ahead(a.pages[0].table, a.pages[0].body, a.pages[1..], a.full) && Sees(s1, a')
    ensures Values(a') == Values(a) && Body(a') == Body(a)
  {
    hide StreamBytes, PageBytes, StartPage, Sum;
    var p := a.pages[0];
    a' := Ahead(p.table, p.body, a.pages[1..], a.full);
    StreamFirst(a.pages);
    assert a.body == [] by { SumEmpty(); }
    HeadStep(s, p, StreamBytes(a.pages[1..]));
    var s1 := StartPage(s).1;
    assert s1.segments[0..|p.table|] == p.table;
  }

  lemma StreamFirst(pages: seq<Page>)
    requires pages != []
    ensures StreamBytes(pages) == PageBytes(pages[0]) + StreamBytes(pages[1..])
  {}

  lemma SumEmpty()
    ensures Sum([]) == 0
  {}

  // ---------------------------------------------------------------- one packet

  /** Some lacing value ends the packet. */
  ghost predicate Terminated(values: seq<byte>) {
    exists i :: 0 <= i < |values| && values[i] < 255
  }

  /** The number of lacing values, and of bytes, of the packet at the head. */
  function PacketLen(values: seq<byte>): (n: nat)
    ensures n <= Sum(values)
  {
    if values == [] then 0 else if values[0] < 255 then values[0] else 255 + PacketLen(values[1..])
  }

  function PacketValues(values: seq<byte>): (n: nat)
    ensures n <= |values|
  {
    if values == [] then 0 else if values[0] < 255 then 1 else 1 + PacketValues(values[1..])
  }

  /** Draining through a segment that `next_segment` opens. */
  lemma DrainOpened(s: Stream, s1: Stream, len: nat)
    requires Wf(s) && s.bytesInSeg == 0 && !s.lastSeg && NextSegment(s) == (len, s1)
    requires Wf(s1) && s1.bytesInSeg == len && s1.pos + len <= |s1.data| && (len == 0 ==> s1.lastSeg)
    ensures Wf(PastSegment(s1))
    ensures Drain(s) == (s1.data[s1.pos..s1.pos + len] + Drain(PastSegment(s1)).0, Drain(PastSegment(s1)).1)
  {
    hide NextSegment, Drain;
    DrainUnfold(s);
    DrainUnfold(s1);
    DrainSegment(s1);
    if len == 0 {
      assert PastSegment(s1) == s1;
      assert [] + Drain(s1).0 == Drain(s1).0;
    }
  }

  lemma DrainUnfold(s: Stream)
    requires Wf(s)
    ensures Wf(Get8Packet(s).1)
    ensures Drain(s) == if Get8Packet(s).0 == EOP then ([], Get8Packet(s).1)
                        else ([Get8Packet(s).0 as byte] + Drain(Get8Packet(s).1).0, Drain(Get8Packet(s).1).1)
    ensures -1 <= Get8Packet(s).0 < 256
  {
    hide Get8Packet;
    Get8PacketWf(s);
  }

  /** Opening the next segment, on this page or on the next. */
  lemma OpenNext(s: Stream, a: Ahead) returns (t: Stream, b: Ahead)
    requires Sees(s, a) && !s.lastSeg && Values(a) != []
    requires a.table == [] ==> a.full
    ensures Sees(t, b) && b.table != [] && !t.lastSeg && Values(b) == Values(a) && Body(b) == Body(a)
    ensures NextSegment(s) == OpenSegment(t)
  {
    hide StartPage, OpenSegment, FlagsOk, Sum, StreamBytes;
    t, b := s, a;
    if a.table == [] {
      assert a.pages != [];
      b := PageStep(s, a);
      t := StartPage(s).1;
      assert b.table != [];
    }
  }

  lemma CutFront<T>(a: seq<T>, b: seq<T>, n: nat)
    requires n <= |a|
    ensures (a + b)[n..] == a[n..] + b && (a + b)[..n] == a[..n] && (a != [] ==> (a + b)[0] == a[0])
  {}

  /** One segment, from a state between segments: what is read, and what is ahead after it. */
  lemma SegmentStep(s: Stream, a: Ahead) returns (a': Ahead, s': Stream)
    requires Sees(s, a) && !s.lastSeg && Values(a) != []
    requires a.table == [] ==> a.full
    ensures Values(a') == Values(a)[1..] && Sees(s', a')
    ensures var len := Values(a)[0];
            s'.lastSeg == (len < 255) && a'.full == (len == 255) && len <= |Body(a)| && Body(a') == Body(a)[len..] &&
            Drain(s) == (Body(a)[..len] + Drain(s').0, Drain(s').1)
  {
    hide StreamBytes, StartPage, OpenSegment, FlagsOk, Sum, Drain, NextSegment, Tables, Bodies;
    var t, b := OpenNext(s, a);
    a' := OpenStep(t, b);
    var (len, s1) := OpenSegment(t);
    s' := PastSegment(s1);
    DrainOpened(s, s1, len);
    CutFront(b.table, Tables(b.pages), 1);
    CutFront(b.body, Bodies(b.pages), len);
  }

  /** Draining a packet delivers exactly its bytes and stops behind its last lacing value. */
  lemma {:induction false} DrainPacket(s: Stream, a: Ahead) returns (a': Ahead, s': Stream)
    requires Sees(s, a) && !s.lastSeg && Terminated(Values(a))
    requires a.table == [] ==> a.full
    ensures var n, m := PacketLen(Values(a)), PacketValues(Values(a));
            n <= |Body(a)| && Drain(s) == (Body(a)[..n], s') && Body(a') == Body(a)[n..] && Values(a') == Values(a)[m..]
    ensures Sees(s', a') && s'.lastSeg && !a'.full
    decreases |Values(a)|
  {
    hide Sees, Sum, Tables, Bodies, Values, Body, Drain;
    var values := Values(a);
    var len := values[0];
    a', s' := SegmentStep(s, a);
    SeesWf(s', a');
    if len < 255 {
      DrainUnfold(s');
      assert Body(a)[..len] + [] == Body(a)[..len];
    } else {
      var t, b := s', a';
      TerminatedTail(values);
      a', s' := DrainPacket(t, b);
      var n := PacketLen(Values(b));
      assert Body(a)[..len] + Body(a)[len..][..n] == Body(a)[..len + n];
      assert Body(a)[len..][n..] == Body(a)[len + n..];
      assert values[1..][PacketValues(Values(b))..] == values[PacketValues(values)..];
    }
  }

  lemma SeesWf(s: Stream, a: Ahead)
    requires Sees(s, a)
    ensures Wf(s) && s.bytesInSeg == 0
  {}

  lemma TerminatedTail(values: seq<byte>)
    requires Terminated(values) && values[0] == 255
    ensures Terminated(values[1..]) && PacketLen(values) == 255 + PacketLen(values[1..])
    ensures PacketValues(values) == 1 + PacketValues(values[1..])
  {
    var i :| 0 <= i < |values| && values[i] < 255;
    assert values[1..][i - 1] == values[i];
  }

  // ---------------------------------------------------------------- all packets

  /** `start_packet` at a packet boundary: on this page or on a next page that starts a packet. */
  lemma StartStep(s: Stream, a: Ahead) returns (b: Ahead)
    requires Sees(s, a) && !a.full && Values(a) != []
    ensures var (ok, t) := StartPacket(s);
            ok && Sees(t, b) && !t.lastSeg && b.table != [] && Values(b) == Values(a) && Body(b) == Body(a)
  {
    hide StartPage, FlagsOk, Sum, StreamBytes;
    b := a;
    if a.table == [] {
      assert a.pages != [];
      b := PageStep(s, a);
    }
  }

  lemma {:induction false} LaceEnds(n: nat, rest: seq<byte>)
    ensures PacketLen(Lace(n) + rest) == n && PacketValues(Lace(n) + rest) == |Lace(n)|
    ensures Terminated(Lace(n) + rest)
  {
    if n < 255 {
      assert (Lace(n) + rest)[0] == n;
    } else {
      hide PacketLen, PacketValues, Terminated, Lace;
      LaceEnds(n - 255, rest);
      LaceLong(n);
      assert [255] + Lace(n - 255) + rest == [255] + (Lace(n - 255) + rest);
      MoreEnds(Lace(n - 255) + rest);
    }
  }

  lemma LaceLong(n: nat)
    requires n >= 255
    ensures Lace(n) == [255] + Lace(n - 255)
  {}

  lemma MoreEnds(tail: seq<byte>)
    requires Terminated(tail)
    ensures Terminated([255] + tail)
    ensures PacketLen([255] + tail) == 255 + PacketLen(tail) && PacketValues([255] + tail) == 1 + PacketValues(tail)
  {
    var i :| 0 <= i < |tail| && tail[i] < 255;
    assert ([255] + tail)[i + 1] == tail[i];
    assert ([255] + tail)[1..] == tail;
  }

  /** Up to `k` packets, each by `start_packet` and reading to its end. */
  function ReadPackets(s: Stream, k: nat): (seq<seq<byte>>, Stream)
    requires Wf(s)
    decreases k
  {
    if k == 0 then ([], s)
    else
      var (ok, t) := StartPacket(s);
      StartPacketWf(s);
      if !ok then ([], t)
      else
        var (p, u) := Drain(t);
        var (ps, v) := ReadPackets(u, k - 1);
        ([p] + ps, v)
  }

  lemma StartPacketWf(s: Stream)
    requires Wf(s)
    ensures Wf(StartPacket(s).1) && StartPacket(s).1.data == s.data
  {
    hide StartPage;
    if s.nextSeg == -1 { StartPageWf(s); }
  }

  /** What lies ahead are the segments of `packets`, from a packet boundary on. */
  ghost predicate LacedAhead(s: Stream, a: Ahead, packets: seq<seq<byte>>) {
    Sees(s, a) && !a.full && Values(a) == LaceAll(packets) && Body(a) == Join(packets)
  }

  /** The parts of what lies ahead: the first packet, and the others. */
  lemma FirstPacket(a: Ahead, packets: seq<seq<byte>>)
    requires packets != [] && Values(a) == LaceAll(packets) && Body(a) == Join(packets)
    ensures Terminated(Values(a)) && PacketLen(Values(a)) == |packets[0]| <= |Body(a)|
    ensures Body(a)[..|packets[0]|] == packets[0] && Body(a)[|packets[0]|..] == Join(packets[1..])
    ensures Values(a)[PacketValues(Values(a))..] == LaceAll(packets[1..])
  {
    hide Tables, Bodies, Values, Body;
    var p, rest := packets[0], LaceAll(packets[1..]);
    LaceEnds(|p|, rest);
    assert Values(a)[|Lace(|p|)|..] == rest;
    assert Join(packets)[..|p|] == p && Join(packets)[|p|..] == Join(packets[1..]);
  }

  /** Starting and reading the first packet leaves the others ahead. */
  lemma OnePacket(s: Stream, a: Ahead, packets: seq<seq<byte>>) returns (a': Ahead)
    requires LacedAhead(s, a, packets) && packets != []
    ensures var (ok, t) := StartPacket(s);
            ok && Wf(t) && Drain(t).0 == packets[0] && LacedAhead(Drain(t).1, a', packets[1..]) &&
            Drain(t).1.lastSeg && Drain(t).1.bytesInSeg == 0
  {
    hide Sees, Sum, Tables, Bodies, Values, Body, Drain, StartPacket, FlagsOk, StreamBytes, LaceAll, Join;
    FirstPacket(a, packets);
    SeesWf(s, a);
    StartPacketWf(s);
    var b := StartStep(s, a);
    var u;
    a', u := DrainPacket(StartPacket(s).1, b);
    SeesWf(u, a');
  }

  lemma AheadWf(s: Stream, a: Ahead, packets: seq<seq<byte>>)
    requires LacedAhead(s, a, packets)
    ensures Wf(s)
  {}

  /** Reading undoes lacing: from any packet boundary, for any number of packets. */
  lemma {:induction false} ReadsLaced(s: Stream, a: Ahead, packets: seq<seq<byte>>, k: nat) returns (a': Ahead)
    requires LacedAhead(s, a, packets) && k <= |packets|
    ensures Wf(s) && ReadPackets(s, k).0 == packets[..k]
    ensures LacedAhead(ReadPackets(s, k).1, a', packets[k..])
    decreases k
  {
    hide LacedAhead, Drain, StartPacket;
    AheadWf(s, a, packets);
    a' := a;
    if k > 0 {
      a' := OnePacket(s, a, packets);
      var u := Drain(StartPacket(s).1).1;
      a' := ReadsLaced(u, a', packets[1..], k - 1);
      assert [packets[0]] + packets[1..][..k - 1] == packets[..k];
      assert packets[1..][k - 1..] == packets[k..];
    } else {
      assert packets[0..] == packets;
    }
  }

  /** The start of a stream lies before all its packets. */
  lemma WholeStream(pages: seq<Page>, packets: seq<seq<byte>>, s: Stream)
    requires Carries(pages, packets)
    requires s.data == StreamBytes(pages) && s.pos == 0 && !s.eof && s.nextSeg == -1 && s.bytesInSeg == 0
    requires |s.segments| == 255 && s.segmentCount <= 255
    ensures LacedAhead(s, Ahead([], [], pages, false), packets)
  {
    hide Tables, Bodies, LaceAll, Join, StreamBytes, Sum, FlagsOk;
    SumEmpty();
    assert [] + StreamBytes(pages) == StreamBytes(pages) == s.data[s.pos..];
    assert [] + Tables(pages) == Tables(pages) && [] + Bodies(pages) == Bodies(pages);
  }

  /** De-lacing inverts lacing: however the segments of the packets are split over pages, reading
      the stream returns exactly the packets and then finds the end of the data. */
  lemma DelacingInvertsLacing(pages: seq<Page>, packets: seq<seq<byte>>, s: Stream)
    requires Carries(pages, packets)
    requires s.data == StreamBytes(pages) && s.pos == 0 && !s.eof && s.nextSeg == -1 && s.bytesInSeg == 0
    requires |s.segments| == 255 && s.segmentCount <= 255
    ensures Wf(s) && ReadPackets(s, |packets|).0 == packets
    ensures var t := ReadPackets(s, |packets|).1; t.pos == |t.data| == |s.data| && !t.eof && t.nextSeg == -1
  {
    hide ReadPackets, LacedAhead, StreamBytes, Carries;
    WholeStream(pages, packets, s);
    var a' := ReadsLaced(s, Ahead([], [], pages, false), packets, |packets|);
    assert packets[..|packets|] == packets;
    NothingLaced(ReadPackets(s, |packets|).1, a', packets[|packets|..]);
    ReadPacketsData(s, |packets|);
  }

  lemma NothingLaced(s: Stream, a: Ahead, packets: seq<seq<byte>>)
    requires LacedAhead(s, a, packets) && packets == []
    ensures s.pos == |s.data| && !s.eof && s.nextSeg == -1
  {
    hide StreamBytes, Tables, Bodies;
    NothingAhead(a);
    assert |s.data[s.pos..]| == |s.data| - s.pos;
  }

  lemma {:induction false} ReadPacketsData(s: Stream, k: nat)
    requires Wf(s)
    ensures ReadPackets(s, k).1.data == s.data
    decreases k
  {
    hide StartPacket, Drain;
    if k > 0 {
      StartPacketWf(s);
      var (ok, t) := StartPacket(s);
      if ok {
        DrainData(t);
        ReadPacketsData(Drain(t).1, k - 1);
      }
    }
  }

  lemma {:induction false} DrainData(s: Stream)
    requires Wf(s)
    ensures Drain(s).1.data == s.data
    decreases |s.data| - s.pos, SegmentsLeft(s), s.bytesInSeg
  {
    hide Get8Packet;
    Get8PacketWf(s);
    DrainUnfold(s);
    if Get8Packet(s).0 != EOP { DrainData(Get8Packet(s).1); }
  }

  /** With no lacing value ahead there is no page ahead. */
  lemma NothingAhead(a: Ahead)
    requires Values(a) == []
    ensures a.table == [] && a.pages == [] && StreamBytes(a.pages) == []
  {}
}
