/** The Ogg page and segment machine of the Vorbis decoder, on values.

    The stream is a buffer in memory.  The functions below are the C functions of the same
    names, from one state of the decoder to the next; the class in vorb.dfy runs them in place.
 */
module Ogg {
  import opened Bits

  datatype Error = NoError | MissingCapturePattern | InvalidVersion | ContinuedFlagInvalid | UnexpectedEof
                 | NeedMoreData | InvalidStream

  const CAPTURE: seq<byte> := [0x4f, 0x67, 0x67, 0x53]

  const EOP: int := -1

  /** `nextSeg` is -1 when the next segment is on the next page. */
  datatype Stream = Stream(
    data: seq<byte>, pos: nat, eof: bool, error: Error,
    segmentCount: nat, segments: seq<byte>, pageFlag: byte,
    nextSeg: int, lastSeg: bool, bytesInSeg: nat)

  ghost predicate Wf(s: Stream) {
    s.pos <= |s.data| && |s.segments| == 255 && s.segmentCount <= 255 &&
    -1 <= s.nextSeg < 255 && (s.nextSeg > 0 ==> s.nextSeg < s.segmentCount) && s.bytesInSeg <= 255
  }

  predicate ContinuedFlag(flag: byte) { flag % 2 == 1 }

  // ---------------------------------------------------------------- bytes

  function Get8(s: Stream): (byte, Stream) {
    if s.pos < |s.data| then (s.data[s.pos], s.(pos := s.pos + 1)) else (0, s.(eof := true))
  }

  /** The state after reading `n` bytes whose values do not matter. */
  function Skip(s: Stream, n: nat): Stream
    requires s.pos <= |s.data|
  {
    if s.pos + n <= |s.data| then s.(pos := s.pos + n) else s.(pos := |s.data|, eof := true)
  }

  /** `getn` into the segment table. */
  function GetTable(s: Stream, n: nat): (bool, Stream)
    requires n <= 255 && |s.segments| == 255
  {
    if s.pos + n > |s.data| then (false, s.(eof := true))
    else (true, s.(segments := s.data[s.pos..s.pos + n] + s.segments[n..], pos := s.pos + n))
  }

  /** `capture_pattern`, from byte `k` on. */
  function Capture(s: Stream, k: nat): (bool, Stream)
    requires k <= 4
    decreases 4 - k
  {
    if k == 4 then (true, s)
    else
      var (b, s') := Get8(s);
      if b != CAPTURE[k] then (false, s') else Capture(s', k + 1)
  }

  // ---------------------------------------------------------------- pages

  /** The header flag, the numbers that are skipped, and the size of the segment table. */
  function PageFields(s1: Stream): (byte, Stream)
    requires s1.pos <= |s1.data|
  {
    var (flag, s2) := Get8(s1);
    Get8(Skip(s2.(pageFlag := flag), 20))
  }

  /** `start_page_no_capturepattern`. */
  function StartPageBody(s0: Stream): (bool, Stream)
    requires Wf(s0) && s0.nextSeg == -1
  {
    var (version, s1) := Get8(s0);
    if version != 0 then (false, s1.(error := InvalidVersion)) else
    var (count, s3) := PageFields(s1);
    var (ok, s4) := GetTable(s3.(segmentCount := count), count);
    if ok then (true, s4.(nextSeg := 0)) else (false, s4.(error := UnexpectedEof))
  }

  /** `start_page`. */
  function StartPage(s: Stream): (bool, Stream)
    requires Wf(s) && s.nextSeg == -1
  {
    var (ok, s1) := Capture(s, 0);
    CaptureWf(s, 0);
    if ok then StartPageBody(s1) else (false, s1.(error := MissingCapturePattern))
  }

  // ---------------------------------------------------------------- packets

  /** `start_packet`; its loop runs at most once, as a started page has a next segment. */
  function StartPacket(s: Stream): (bool, Stream)
    requires Wf(s)
  {
    if s.nextSeg == -1 then
      var (ok, s1) := StartPage(s);
      if !ok then (false, s1)
      else if ContinuedFlag(s1.pageFlag) then (false, s1.(error := ContinuedFlagInvalid))
      else (true, s1.(lastSeg := false, bytesInSeg := 0))
    else (true, s.(lastSeg := false, bytesInSeg := 0))
  }

  /** `maybe_start_packet`: like `start_packet`, but the end of the data at a page boundary is no error. */
  function MaybeStartPacket(s: Stream): (bool, Stream)
    requires Wf(s)
  {
    if s.nextSeg == -1 then
      var (x, s1) := Get8(s);
      if s1.eof then (false, s1)
      else if x != CAPTURE[0] then (false, s1.(error := MissingCapturePattern)) else
      var (ok, s2) := Capture(s1, 1);
      CaptureWf(s1, 1);
      if !ok then (false, s2.(error := MissingCapturePattern)) else
      var (ok, s3) := StartPageBody(s2);
      if !ok then (false, s3)
      else if ContinuedFlag(s3.pageFlag) then
        (false, s3.(lastSeg := false, bytesInSeg := 0, error := ContinuedFlagInvalid))
      else (true, s3.(lastSeg := false, bytesInSeg := 0))
    else StartPacket(s)
  }

  /** `next_segment`: the length of the next segment, 0 also when there is none. */
  function NextSegment(s: Stream): (nat, Stream)
    requires Wf(s)
  {
    if s.lastSeg then (0, s)
    else if s.nextSeg == -1 then
      var (ok, s1) := StartPage(s);
      StartPageWf(s);
      if !ok then (0, s1.(lastSeg := true))
      else if !ContinuedFlag(s1.pageFlag) then (0, s1.(error := ContinuedFlagInvalid))
      else OpenSegment(s1)
    else OpenSegment(s)
  }

  /** The tail of `next_segment`: open segment `nextSeg` of the page. */
  function OpenSegment(s: Stream): (nat, Stream)
    requires Wf(s) && s.nextSeg >= 0
  {
    var len := s.segments[s.nextSeg];
    (len, s.(lastSeg := len < 255 || s.lastSeg,
             nextSeg := if s.nextSeg + 1 >= s.segmentCount then -1 else s.nextSeg + 1,
             bytesInSeg := len))
  }

  /** The tail of `get8_packet_raw`: a byte of the open segment. */
  function PacketByte(s: Stream): (int, Stream)
    requires s.bytesInSeg > 0
  {
    var (b, s') := Get8(s.(bytesInSeg := s.bytesInSeg - 1));
    (b, s')
  }

  /** `get8_packet_raw`: the next byte of the packet, or `EOP`. */
  function Get8Packet(s: Stream): (int, Stream)
    requires Wf(s)
  {
    if s.bytesInSeg == 0 then
      if s.lastSeg then (EOP, s)
      else
        var (len, s1) := NextSegment(s);
        NextSegmentWf(s);
        if len == 0 then (EOP, s1) else PacketByte(s1)
    else PacketByte(s)
  }

  // ---------------------------------------------------------------- well-formedness and progress

  lemma {:induction false} CaptureWf(s: Stream, k: nat)
    requires Wf(s) && k <= 4
    ensures Wf(Capture(s, k).1)
    ensures var r := Capture(s, k);
            r.1 == s.(pos := r.1.pos, eof := r.1.eof) && r.1.pos >= s.pos && (s.eof ==> r.1.eof)
    ensures Capture(s, k).0 && k < 4 ==> Capture(s, k).1.pos == s.pos + (4 - k) && Capture(s, k).1.eof == s.eof
    decreases 4 - k
  {
    if k < 4 && Get8(s).0 == CAPTURE[k] { CaptureWf(Get8(s).1, k + 1); }
  }

  lemma StartPageBodyWf(s: Stream)
    requires Wf(s) && s.nextSeg == -1
    ensures var (ok, r) := StartPageBody(s);
            Wf(r) && r.data == s.data && r.pos >= s.pos && r.nextSeg == (if ok then 0 else -1) &&
            r.lastSeg == s.lastSeg && r.bytesInSeg == s.bytesInSeg && (s.eof ==> r.eof)
  {
    hide PageFields, GetTable;
    var s1 := Get8(s).1;
    PageFieldsWf(s1);
    var (count, s4) := PageFields(s1);
    TableWf(s4.(segmentCount := count), count);
  }

  lemma PageFieldsWf(s: Stream)
    requires Wf(s)
    ensures var r := PageFields(s).1;
            Wf(r) && r == s.(pos := r.pos, eof := r.eof, pageFlag := r.pageFlag) && r.pos >= s.pos && (s.eof ==> r.eof)
  {
    hide Skip;
    var (flag, s2) := Get8(s);
    SkipWf(s2.(pageFlag := flag), 20);
  }

  lemma SkipWf(s: Stream, n: nat)
    requires Wf(s)
    ensures var r := Skip(s, n); Wf(r) && r == s.(pos := r.pos, eof := r.eof) && r.pos >= s.pos && (s.eof ==> r.eof)
  {}

  lemma TableWf(s: Stream, n: nat)
    requires Wf(s) && n <= 255
    ensures var r := GetTable(s, n).1;
            Wf(r) && r == s.(pos := r.pos, eof := r.eof, segments := r.segments) && r.pos >= s.pos && (s.eof ==> r.eof)
  {}

  lemma StartPageWf(s: Stream)
    requires Wf(s) && s.nextSeg == -1
    ensures var (ok, r) := StartPage(s);
            Wf(r) && r.data == s.data && r.pos >= s.pos && r.nextSeg == (if ok then 0 else -1) &&
            r.lastSeg == s.lastSeg && r.bytesInSeg == s.bytesInSeg && (s.eof ==> r.eof) &&
            (ok ==> r.pos > s.pos)
  {
    hide Capture, StartPageBody;
    CaptureWf(s, 0);
    var (ok, s1) := Capture(s, 0);
    if ok { StartPageBodyWf(s1); }
  }

  /** How much the machine can still do: bytes of the stream, segments of the page, bytes of the segment. */
  ghost function SegmentsLeft(s: Stream): nat {
    if s.nextSeg < 0 || s.nextSeg > 255 then 0 else 256 - s.nextSeg
  }

  lemma NextSegmentWf(s: Stream)
    requires Wf(s)
    ensures var (len, r) := NextSegment(s);
            Wf(r) && r.data == s.data && r.pos >= s.pos && (s.eof ==> r.eof) &&
            (len > 0 ==> r.bytesInSeg == len && !s.lastSeg && (r.pos > s.pos || SegmentsLeft(r) < SegmentsLeft(s)))
  {
    hide StartPage;
    if !s.lastSeg && s.nextSeg == -1 { StartPageWf(s); }
  }

  lemma Get8PacketWf(s: Stream)
    requires Wf(s)
    ensures var (b, r) := Get8Packet(s);
            Wf(r) && r.data == s.data && r.pos >= s.pos && (s.eof ==> r.eof) &&
            (b != EOP ==> 0 <= b < 256 && Progress(s, r))
  {
    hide NextSegment;
    if s.bytesInSeg == 0 && !s.lastSeg {
      NextSegmentWf(s);
      var (len, s1) := NextSegment(s);
      if len > 0 {
        assert s1.pos > s.pos || SegmentsLeft(s1) < SegmentsLeft(s);
        var (b, r) := PacketByte(s1);
        assert Get8Packet(s) == (b, r);
        assert SegmentsLeft(r) == SegmentsLeft(s1);
        assert r.pos >= s1.pos;
        assert Progress(s, r);
      }
    }
  }

  ghost predicate Progress(s: Stream, r: Stream) {
    r.pos > s.pos || SegmentsLeft(r) < SegmentsLeft(s) || (SegmentsLeft(r) == SegmentsLeft(s) && r.bytesInSeg < s.bytesInSeg)
  }

  /** `flush_packet` that keeps what it reads: the bytes up to `EOP`. */
  function Drain(s: Stream): (r: (seq<byte>, Stream))
    requires Wf(s)
    ensures Wf(r.1)
    decreases |s.data| - s.pos, SegmentsLeft(s), s.bytesInSeg
  {
    Get8PacketWf(s);
    var (b, s') := Get8Packet(s);
    if b == EOP then ([], s')
    else
      var (bs, s'') := Drain(s');
      ([b] + bs, s'')
  }
}
