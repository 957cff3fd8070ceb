/** The decoder object, in place.

    The methods carry the names of the C functions and change the fields that those change.  Each is
    proved equal to the function of the same name on the state of the stream or of the bit reader.
 */
module Vorb {
  import opened Bits
  import opened Ogg
  import opened Lookahead
  import opened BitReader
  import Lacing
  import Decode
  import opened HuffmanTables
  import opened Codebooks
  import opened CodebookTables
  import opened CodebookBuild
  import Codewords

  /** The fields of `stb_vorbis` that the stream and the bit readers use. */
  class Decoder {
    const stream: seq<byte>
    var pos: nat
    var eof: bool
    var error: Error
    var segmentCount: nat
    var segments: array<byte>
    var pageFlag: byte
    var nextSeg: int
    var lastSeg: bool
    var bytesInSeg: nat
    var acc: nat
    var validBits: int
    var previousLength: nat

    constructor (stream: seq<byte>)
      ensures this.stream == stream && fresh(segments) && previousLength == 0
      ensures Wf(State()) && !eof && pos == 0 && nextSeg == -1 && bytesInSeg == 0 && validBits == 0
    {
      this.stream := stream;
      pos, eof, error, segmentCount, pageFlag := 0, false, NoError, 0, 0;
      nextSeg, lastSeg, bytesInSeg := -1, false, 0;
      acc, validBits, previousLength := 0, 0, 0;
      segments := new byte[255](_ => 0);
    }

    ghost function State(): Stream
      reads this, segments
    {
      Stream(stream, pos, eof, error, segmentCount, segments[..], pageFlag, nextSeg, lastSeg, bytesInSeg)
    }
  }

  method Get8(f: Decoder) returns (x: byte)
    modifies f`pos, f`eof
    ensures (x, f.State()) == Ogg.Get8(old(f.State()))
  {
    if f.pos >= |f.stream| {
      f.eof := true;
      return 0;
    }
    x := f.stream[f.pos];
    f.pos := f.pos + 1;
  }

  /** `get32`, whose values the model does not need. */
  method Get32(f: Decoder) returns (x: nat)
    requires Wf(f.State())
    modifies f`pos, f`eof
    ensures f.State() == Skip(old(f.State()), 4)
    ensures x < WORD
  {
    var a := Get8(f);
    var b := Get8(f);
    var c := Get8(f);
    var d := Get8(f);
    x := a as nat + b as nat * 0x100 + c as nat * 0x10000 + d as nat * 0x1000000;
  }

  /** `getn` into the segment table. */
  method GetSegments(f: Decoder, n: nat) returns (ok: bool)
    requires Wf(f.State()) && n <= 255
    modifies f`pos, f`eof, f.segments
    ensures (ok, f.State()) == GetTable(old(f.State()), n)
  {
    if f.pos + n > |f.stream| {
      f.eof := true;
      return false;
    }
    for i := 0 to n
      invariant f.pos == old(f.pos) && f.eof == old(f.eof)
      invariant forall j :: 0 <= j < i ==> f.segments[j] == f.stream[f.pos + j]
      invariant forall j :: i <= j < 255 ==> f.segments[j] == old(f.segments[j])
    {
      f.segments[i] := f.stream[f.pos + i];
    }
    assert f.segments[..] == f.stream[f.pos..f.pos + n] + old(f.segments[..])[n..];
    f.pos := f.pos + n;
    return true;
  }

  method CapturePattern(f: Decoder) returns (ok: bool)
    modifies f`pos, f`eof
    ensures (ok, f.State()) == Capture(old(f.State()), 0)
  {
    var x := Get8(f);
    if 0x4f != x { return false; }
    x := Get8(f);
    if 0x67 != x { return false; }
    x := Get8(f);
    if 0x67 != x { return false; }
    x := Get8(f);
    if 0x53 != x { return false; }
    return true;
  }

  lemma SkipOn(s: Stream, m: nat, n: nat)
    requires Wf(s)
    ensures Wf(Skip(s, m)) && Skip(Skip(s, m), n) == Skip(s, m + n)
  {}

  /** Absolute granule position, serial number, page sequence number and CRC32. */
  method GetPageNumbers(f: Decoder)
    requires Wf(f.State())
    modifies f`pos, f`eof
    ensures f.State() == Skip(old(f.State()), 20)
  {
    hide Skip;
    SkipOn(f.State(), 4, 4);
    SkipOn(f.State(), 8, 4);
    SkipOn(f.State(), 12, 4);
    SkipOn(f.State(), 16, 4);
    var loc0 := Get32(f);
    var loc1 := Get32(f);
    var serial := Get32(f);
    var n := Get32(f);
    var crc := Get32(f);
  }

  /** The fields between the version and the segment table; the last one is the size of the table. */
  method GetPageFields(f: Decoder) returns (count: byte)
    requires Wf(f.State())
    modifies f`pos, f`eof, f`pageFlag
    ensures (count, f.State()) == PageFields(old(f.State()))
    ensures Wf(f.State())
  {
    hide Skip;
    PageFieldsWf(f.State());
    f.pageFlag := Get8(f);
    SkipWf(f.State(), 20);
    GetPageNumbers(f);
    count := Get8(f);
  }

  method StartPageNoCapturePattern(f: Decoder) returns (ok: bool)
    requires Wf(f.State()) && f.nextSeg == -1
    modifies f`pos, f`eof, f`error, f`pageFlag, f`segmentCount, f`nextSeg, f.segments
    ensures (ok, f.State()) == StartPageBody(old(f.State()))
  {
    hide PageFields, GetTable;
    // only version 0 of the page format exists
    var x := Get8(f);
    if 0 != x {
      f.error := InvalidVersion;
      return false;
    }
    PageFieldsWf(f.State());
    f.segmentCount := GetPageFields(f);
    ok := GetSegments(f, f.segmentCount);
    if !ok {
      f.error := UnexpectedEof;
      return false;
    }
    f.nextSeg := 0;
    return true;
  }

  method StartPage(f: Decoder) returns (ok: bool)
    requires Wf(f.State()) && f.nextSeg == -1
    modifies f`pos, f`eof, f`error, f`pageFlag, f`segmentCount, f`nextSeg, f.segments
    ensures (ok, f.State()) == Ogg.StartPage(old(f.State()))
    ensures Wf(f.State())
  {
    hide Capture, StartPageBody;
    CaptureWf(f.State(), 0);
    StartPageWf(f.State());
    ok := CapturePattern(f);
    if !ok {
      f.error := MissingCapturePattern;
      return false;
    }
    ok := StartPageNoCapturePattern(f);
  }

  method StartPacket(f: Decoder) returns (ok: bool)
    requires Wf(f.State())
    modifies f`pos, f`eof, f`error, f`pageFlag, f`segmentCount, f`nextSeg, f`lastSeg, f`bytesInSeg, f`validBits, f.segments
    ensures (ok, f.State()) == Ogg.StartPacket(old(f.State()))
    ensures ok ==> f.validBits == 0
    ensures Wf(f.State())
  {
    hide Ogg.StartPage;
    if f.nextSeg == -1 { StartPageWf(f.State()); }
    while f.nextSeg == -1
      invariant Wf(f.State())
      invariant f.nextSeg == -1 ==> f.State() == old(f.State())
      invariant f.nextSeg != -1 ==>
                  if old(f.nextSeg) == -1 then
                    (true, f.State()) == Ogg.StartPage(old(f.State())) && !ContinuedFlag(f.pageFlag)
                  else f.State() == old(f.State())
      decreases if f.nextSeg == -1 then 1 else 0
    {
      var started := StartPage(f);
      if !started { return false; }
      if ContinuedFlag(f.pageFlag) {
        f.error := ContinuedFlagInvalid;
        return false;
      }
    }
    f.lastSeg := false;
    f.validBits := 0;
    f.bytesInSeg := 0;
    return true;
  }

  /** The comparisons of `maybe_start_packet` behind the first one. */
  method CaptureRest(f: Decoder) returns (ok: bool)
    modifies f`pos, f`eof
    ensures (ok, f.State()) == Capture(old(f.State()), 1)
  {
    var x := Get8(f);
    if 0x67 != x { return false; }
    x := Get8(f);
    if 0x67 != x { return false; }
    x := Get8(f);
    return 0x53 == x;
  }

  method MaybeStartPacket(f: Decoder) returns (ok: bool)
    requires Wf(f.State())
    modifies f`pos, f`eof, f`error, f`pageFlag, f`segmentCount, f`nextSeg, f`lastSeg, f`bytesInSeg, f`validBits, f.segments
    ensures (ok, f.State()) == Ogg.MaybeStartPacket(old(f.State()))
    ensures ok ==> f.validBits == 0
  {
    hide StartPageBody, Ogg.StartPage, Capture;
    if f.nextSeg == -1 {
      var x := Get8(f);
      if f.eof { return false; }  // no error: the data may end where a page could start
      if 0x4f != x { f.error := MissingCapturePattern; return false; }
      CaptureWf(f.State(), 1);
      ok := CaptureRest(f);
      if !ok { f.error := MissingCapturePattern; return false; }
      StartPageBodyWf(f.State());
      ok := StartPageNoCapturePattern(f);
      if !ok { return false; }
      if ContinuedFlag(f.pageFlag) {
        f.lastSeg := false;
        f.bytesInSeg := 0;
        f.error := ContinuedFlagInvalid;
        return false;
      }
    }
    ok := StartPacket(f);
  }

  method NextSegment(f: Decoder) returns (len: nat)
    requires Wf(f.State())
    modifies f`pos, f`eof, f`error, f`pageFlag, f`segmentCount, f`nextSeg, f`lastSeg, f`bytesInSeg, f.segments
    ensures (len, f.State()) == Ogg.NextSegment(old(f.State()))
    ensures Wf(f.State())
  {
    hide Ogg.StartPage;
    NextSegmentWf(f.State());
    if f.nextSeg == -1 { StartPageWf(f.State()); }
    if f.lastSeg { return 0; }
    if f.nextSeg == -1 {
      var started := StartPage(f);
      if !started {
        f.lastSeg := true;
        return 0;
      }
      if !ContinuedFlag(f.pageFlag) {
        f.error := ContinuedFlagInvalid;
        return 0;
      }
    }
    len := f.segments[f.nextSeg];
    f.nextSeg := f.nextSeg + 1;
    if len < 255 { f.lastSeg := true; }
    if f.nextSeg >= f.segmentCount { f.nextSeg := -1; }
    f.bytesInSeg := len;
  }

  method Get8PacketRaw(f: Decoder) returns (b: int)
    requires Wf(f.State())
    modifies f`pos, f`eof, f`error, f`pageFlag, f`segmentCount, f`nextSeg, f`lastSeg, f`bytesInSeg, f.segments
    ensures (b, f.State()) == Get8Packet(old(f.State()))
    ensures Wf(f.State()) && -1 <= b < 256
  {
    hide Ogg.NextSegment;
    Get8PacketWf(f.State());
    NextSegmentWf(f.State());
    if f.bytesInSeg == 0 {
      if f.lastSeg { return EOP; }
      var len := NextSegment(f);
      if len == 0 { return EOP; }
    }
    f.bytesInSeg := f.bytesInSeg - 1;
    b := Get8(f);
  }

  /** `flush_packet`. */
  method FlushPacket(f: Decoder)
    requires Wf(f.State())
    modifies f`pos, f`eof, f`error, f`pageFlag, f`segmentCount, f`nextSeg, f`lastSeg, f`bytesInSeg, f.segments
    ensures Wf(f.State()) && f.State() == Drain(old(f.State())).1
  {
    hide Get8Packet, Drain;
    Lacing.DrainUnfold(f.State());
    var b := Get8PacketRaw(f);
    while b != EOP
      invariant Wf(f.State()) && -1 <= b < 256
      invariant if b == EOP then f.State() == Drain(old(f.State())).1 else Drain(f.State()).1 == Drain(old(f.State())).1
      decreases b != EOP, |f.stream| - f.pos, SegmentsLeft(f.State()), f.bytesInSeg
    {
      Lacing.DrainUnfold(f.State());
      Get8PacketWf(f.State());
      b := Get8PacketRaw(f);
    }
  }

  // ---------------------------------------------------------------- the bit readers

  /** The bits the decoder holds and the bytes of the packet that it has still to fetch. */
  ghost function BitsOf(f: Decoder): (r: Reader)
    requires Wf(f.State())
    reads f, f.segments
    ensures f.lastSeg && f.bytesInSeg == 0 ==> r.rest == []
  {
    Lacing.DrainUnfold(f.State());
    Reader(f.acc, f.validBits, Drain(f.State()).0)
  }

  /** What one fetch does: a byte of the packet, or its end. */
  lemma Fetch(s: Stream)
    requires Wf(s)
    ensures Wf(Get8Packet(s).1) && -1 <= Get8Packet(s).0 < 256
    ensures Get8Packet(s).0 == EOP <==> Drain(s).0 == []
    ensures Get8Packet(s).0 != EOP ==>
              Drain(s).0[0] == Get8Packet(s).0 && Drain(s).0[1..] == Drain(Get8Packet(s).1).0 &&
              Drain(s).1 == Drain(Get8Packet(s).1).1
    ensures Get8Packet(s).0 == EOP ==> Drain(s).1 == Get8Packet(s).1
  {
    hide Get8Packet, Drain;
    Lacing.DrainUnfold(s);
  }

  /** The loop of `get_bits` that fetches bytes until `n` bits are buffered. */
  method FillBits(f: Decoder, n: nat) returns (ok: bool)
    requires Wf(f.State()) && f.validBits >= 0
    modifies f`pos, f`eof, f`error, f`pageFlag, f`segmentCount, f`nextSeg, f`lastSeg, f`bytesInSeg, f.segments
    modifies f`acc, f`validBits
    ensures Wf(f.State())
    ensures ok == (Fill(old(BitsOf(f)), n).valid >= 0) && f.validBits == Fill(old(BitsOf(f)), n).valid
    ensures ok ==> BitsOf(f) == Fill(old(BitsOf(f)), n)
  {
    hide Get8Packet, Drain, Shl;
    FillEnough(BitsOf(f), n);
    while f.validBits < n
      invariant Wf(f.State()) && f.validBits >= 0
      invariant Fill(BitsOf(f), n) == Fill(old(BitsOf(f)), n)
    {
      Fetch(f.State());
      var z := Get8PacketRaw(f);
      if z == EOP {
        f.validBits := INVALID;
        return false;
      }
      f.acc := f.acc + Shl(z, f.validBits);
      f.validBits := f.validBits + 8;
    }
    return true;
  }

  /** `get_bits`.  Reading 32 bits when 32 are buffered would shift by the width of the word. */
  method GetBits(f: Decoder, n: nat) returns (z: nat)
    requires Wf(f.State()) && f.validBits >= INVALID && n <= 32
    requires n == 32 ==> f.validBits < 32
    modifies f`pos, f`eof, f`error, f`pageFlag, f`segmentCount, f`nextSeg, f`lastSeg, f`bytesInSeg, f.segments
    modifies f`acc, f`validBits
    ensures Wf(f.State())
    ensures z == BitReader.GetBits(old(BitsOf(f)), n).0 && f.validBits == BitReader.GetBits(old(BitsOf(f)), n).1.valid
    ensures f.validBits >= 0 ==> BitsOf(f) == BitReader.GetBits(old(BitsOf(f)), n).1
    decreases n
  {
    hide Drain, Fill, Shl, Shr, Low;
    if f.validBits < 0 { return 0; }
    if f.validBits < n {
      if n > 24 {
        z := GetBits(f, 24);
        var hi := GetBits(f, n - 24);
        return z + Shl(hi, 24);
      }
      if f.validBits == 0 { f.acc := 0; }
      FillEnough(BitsOf(f), n);
      var ok := FillBits(f, n);
      if !ok { return 0; }
    }
    z := Low(f.acc, n);
    f.acc := Shr(f.acc, n);
    f.validBits := f.validBits - n;
  }

  /** The packet ends with a lacing value below 255 or with the data, not with a page whose
      continued flag is wrong: then `get8_packet_raw` keeps returning `EOP` at its end. */
  ghost predicate EndsCleanly(s: Stream)
    requires Wf(s)
  {
    Drain(s).1.lastSeg && Drain(s).1.bytesInSeg == 0
  }

  lemma EndStays(s: Stream)
    requires Wf(s) && EndsCleanly(s) && Get8Packet(s).0 == EOP
    ensures Wf(Get8Packet(s).1) && Drain(Get8Packet(s).1) == ([], Get8Packet(s).1) && EndsCleanly(Get8Packet(s).1)
  {
    hide Drain;
    Lacing.DrainUnfold(s);
    DrainStops(Get8Packet(s).1);
  }

  /** A decoder from which the decoders of codewords read: after a read past the end of the packet, shifting by
      the number of valid bits is avoided only because the packet is over. */
  ghost predicate Decodable(f: Decoder)
    reads f, f.segments
  {
    Wf(f.State()) && (f.validBits >= 0 || (f.validBits == INVALID && f.lastSeg && f.bytesInSeg == 0))
  }

  lemma DecodableLive(f: Decoder)
    requires Decodable(f)
    ensures Wf(f.State()) && Decode.Live(BitsOf(f))
  {}

  /** The end of the packet is not met while the accumulator is topped up, or nothing comes behind it. */
  ghost predicate Supplied(f: Decoder)
    requires Decodable(f)
    reads f, f.segments
  {
    EndsCleanly(f.State()) || Decode.Prep(BitsOf(f)).valid > 24
  }

  /** The bits after `prep_huffman`.  Where a packet breaks off, the bytes that can still be fetched are those behind
      the head of the wrong page. */
  ghost function Topped(f: Decoder): (r: Reader)
    requires Decodable(f)
    reads f, f.segments
    ensures Decode.Live(r)
  {
    Decode.PrepNotInvalid(BitsOf(f));
    var r := Decode.Prep(BitsOf(f));
    if r.valid > 24 then r
    else
      Lacing.DrainUnfold(f.State());
      Lacing.DrainUnfold(Drain(f.State()).1);
      r.(rest := Drain(Drain(f.State()).1).0)
  }

  /** The bits at which the fast table looks. */
  ghost function Readied(f: Decoder): (r: Reader)
    requires Decodable(f)
    reads f, f.segments
    ensures Decode.Live(r)
  {
    if f.validBits < FAST_LENGTH then Topped(f) else BitsOf(f)
  }

  lemma SuppliedReady(f: Decoder)
    requires Decodable(f) && Supplied(f)
    ensures Topped(f) == Decode.Prep(BitsOf(f)) && Readied(f) == Decode.Ready10(BitsOf(f))
  {
    hide Drain, Decode.Prep;
    Decode.PrepNotInvalid(BitsOf(f));
    if EndsCleanly(f.State()) {
      DrainStops(Drain(f.State()).1);
      PrepEnds(BitsOf(f));
    }
  }

  lemma SuppliedSlot(f: Decoder, bk: Book)
    requires Decodable(f) && Supplied(f) && Decode.Usable(bk)
    ensures Decode.DecodeSlot(bk, BitsOf(f)) == Decode.DecodeFrom(bk, Readied(f))
  {
    hide Drain, Decode.Prep, Supplied, Readied, Decode.Ready10, Decode.Usable;
    SuppliedReady(f);
  }

  lemma PrepEnds(s: Reader)
    requires Decode.Live(s)
    ensures Decode.Prep(s).valid > 24 || Decode.Prep(s).rest == []
  {
    hide Decode.Top;
    TopEnds(Cleared(s));
  }

  lemma {:induction false} TopEnds(s: Reader)
    requires Decode.Live(s)
    ensures Decode.Top(s).valid > 24 || Decode.Top(s).rest == []
    decreases |s.rest|
  {
    hide Shl;
    if s.rest != [] && Take(s).valid <= 24 { TopEnds(Take(s)); }
  }

  lemma CleanIsSupplied(f: Decoder)
    requires Decodable(f) && EndsCleanly(f.State())
    ensures Supplied(f)
  {}

  /** `prep_huffman`. */
  method PrepHuffman(f: Decoder)
    requires Decodable(f)
    modifies f`pos, f`eof, f`error, f`pageFlag, f`segmentCount, f`nextSeg, f`lastSeg, f`bytesInSeg, f.segments
    modifies f`acc, f`validBits
    ensures Decodable(f) && (old(EndsCleanly(f.State())) ==> EndsCleanly(f.State()))
    ensures f.acc == Decode.Prep(old(BitsOf(f))).acc && f.validBits == Decode.Prep(old(BitsOf(f))).valid
    ensures old(Supplied(f)) ==> BitsOf(f) == Decode.Prep(old(BitsOf(f)))
    ensures BitsOf(f) == old(Topped(f))
    ensures f.validBits <= 24 ==> f.State() == old(Drain(f.State()).1)
  {
    hide Drain, Shl, Get8Packet, Decode.Top;
    if f.validBits <= 24 {
      if f.validBits == 0 { f.acc := 0; }
      TopUp(f);
    }
  }

  /** The loop of `prep_huffman`. */
  method TopUp(f: Decoder)
    requires Decodable(f) && f.validBits <= 24
    modifies f`pos, f`eof, f`error, f`pageFlag, f`segmentCount, f`nextSeg, f`lastSeg, f`bytesInSeg, f.segments
    modifies f`acc, f`validBits
    ensures Decodable(f) && (old(EndsCleanly(f.State())) ==> EndsCleanly(f.State()))
    ensures f.acc == Decode.Top(old(BitsOf(f))).acc && f.validBits == Decode.Top(old(BitsOf(f))).valid
    ensures f.validBits > 24 || old(EndsCleanly(f.State())) ==> BitsOf(f) == Decode.Top(old(BitsOf(f)))
    ensures f.validBits <= 24 ==> f.State() == old(Drain(f.State()).1)
  {
    hide Drain, Shl, Get8Packet;
    while true
      invariant Decodable(f) && f.validBits <= 24 && Drain(f.State()).1 == old(Drain(f.State()).1)
      invariant Decode.Top(BitsOf(f)) == Decode.Top(old(BitsOf(f)))
      decreases 24 - f.validBits
    {
      if f.lastSeg && f.bytesInSeg == 0 {
        DrainStops(f.State());
        return;
      }
      Fetch(f.State());
      if EndsCleanly(f.State()) && Get8Packet(f.State()).0 == EOP { EndStays(f.State()); }
      var z := Get8PacketRaw(f);
      if z == EOP { return; }
      f.acc := f.acc + Shl(z, f.validBits);
      f.validBits := f.validBits + 8;
      if f.validBits > 24 { return; }
    }
  }

  // ---------------------------------------------------------------- the Huffman decoders

  /** `codebook_decode_scalar_raw`: a slot of the codebook, or -1. */
  method CodebookDecodeScalarRaw(f: Decoder, c: Codebook) returns (x: int)
    requires Decodable(f) && Decode.Usable(BookOf(c))
    modifies f`pos, f`eof, f`error, f`pageFlag, f`segmentCount, f`nextSeg, f`lastSeg, f`bytesInSeg, f.segments
    modifies f`acc, f`validBits
    ensures Decodable(f) && (old(EndsCleanly(f.State())) ==> EndsCleanly(f.State()))
    ensures var (slot, s) := old(Decode.DecodeRaw(BookOf(c), BitsOf(f)));
            x == slot && f.acc == s.acc && f.validBits == s.valid && (old(Supplied(f)) ==> BitsOf(f) == s)
    ensures -1 <= x < c.codewordLengths.Length && (c.sparse ==> x < c.sortedEntries)
  {
    hide Drain, Decode.Prep, Decode.Scan, Decode.SearchSorted, Supplied, Decode.Usable, EndsCleanly, Decode.DecodeRaw;
    ghost var bk := BookOf(c);
    Decode.RawIs(bk, BitsOf(f));
    ghost var bits := Decode.Prep(BitsOf(f));
    PrepHuffman(f);
    if c.codewords == null && c.sortedCodewords == null { return -1; }
    if (if c.entries > 8 then c.sortedCodewords != null else c.codewords == null) {
      x := SortedSearch(f, c, bk, bits);
      return;
    }
    x := LinearSearch(f, c, bk, bits);
  }

  /** The binary search of `codebook_decode_scalar_raw`, which looks at the buffered bits only. */
  method SortedSearch(f: Decoder, c: Codebook, ghost bk: Book, ghost s: Reader) returns (x: int)
    requires Decode.Live(s) && f.acc == s.acc && f.validBits == s.valid
    requires bk == BookOf(c) && Decode.Usable(bk) && c.sortedCodewords != null
    modifies f`acc, f`validBits
    ensures x == Decode.SearchSorted(bk, s).0
    ensures f.acc == Decode.SearchSorted(bk, s).1.acc && f.validBits == Decode.SearchSorted(bk, s).1.valid
    ensures Decode.SearchSorted(bk, s).1.rest == s.rest
  {
    hide Shr, BitReverse, Search;
    // `x` is first a place in the sorted table ...
    x := BinarySearch(c.sortedCodewords, c.sortedEntries, BitReverse(f.acc));
    if !c.sparse { x := c.sortedValues[x]; }
    // ... and then a slot of the codebook
    var len := c.codewordLengths[x];
    if f.validBits >= len {
      f.acc := Shr(f.acc, len);
      f.validBits := f.validBits - len;
      return x;
    }
    f.validBits := 0;
    return -1;
  }

  /** The linear search of `codebook_decode_scalar_raw`, which looks at the buffered bits only. */
  method LinearSearch(f: Decoder, c: Codebook, ghost bk: Book, ghost s: Reader) returns (x: int)
    requires Wf(f.State()) && Decode.Live(s) && f.acc == s.acc && f.validBits == s.valid
    requires bk == BookOf(c) && Decode.Usable(bk) && c.codewords != null
    modifies f`error, f`acc, f`validBits
    ensures f.State() == old(f.State()).(error := f.error) && Wf(f.State())
    ensures Drain(f.State()).0 == old(Drain(f.State()).0)
    ensures EndsCleanly(f.State()) == old(EndsCleanly(f.State()))
    ensures x == Decode.Scan(bk.slotLens, bk.codewords.value, 0, s).0
    ensures f.acc == Decode.Scan(bk.slotLens, bk.codewords.value, 0, s).1.acc
    ensures f.validBits == Decode.Scan(bk.slotLens, bk.codewords.value, 0, s).1.valid
    ensures Decode.Scan(bk.slotLens, bk.codewords.value, 0, s).1.rest == s.rest
  {
    hide Drain, Shr, Low;
    ghost var lens, words := bk.slotLens, bk.codewords.value;
    for i := 0 to c.entries
      invariant f.acc == s.acc && f.validBits == s.valid && f.State() == old(f.State())
      invariant Decode.Scan(lens, words, i, s) == Decode.Scan(lens, words, 0, s)
    {
      if c.codewordLengths[i] != Codewords.NO_CODE {
        if c.codewords[i] == Low(f.acc, c.codewordLengths[i]) {
          if f.validBits >= c.codewordLengths[i] {
            f.acc := Shr(f.acc, c.codewordLengths[i]);
            f.validBits := f.validBits - c.codewordLengths[i];
            return i;
          }
          f.validBits := 0;
          return -1;
        }
      }
    }
    DrainSame(f.State(), f.State().(error := InvalidStream));
    f.error := InvalidStream;
    f.validBits := 0;
    return -1;
  }

  // the error code does not influence what is read

  ghost predicate SameButError(s: Stream, t: Stream) {
    t == s.(error := t.error)
  }

  lemma {:induction false} CaptureSame(s: Stream, t: Stream, k: nat)
    requires SameButError(s, t) && k <= 4
    ensures Capture(s, k).0 == Capture(t, k).0 && SameButError(Capture(s, k).1, Capture(t, k).1)
    decreases 4 - k
  {
    if k < 4 { CaptureSame(Ogg.Get8(s).1, Ogg.Get8(t).1, k + 1); }
  }

  lemma StartPageBodySame(s: Stream, t: Stream)
    requires SameButError(s, t) && Wf(s) && s.nextSeg == -1
    ensures Wf(t) && StartPageBody(s).0 == StartPageBody(t).0 && SameButError(StartPageBody(s).1, StartPageBody(t).1)
  {
    hide PageFields, GetTable;
    var s1, t1 := Ogg.Get8(s).1, Ogg.Get8(t).1;
    PageFieldsSame(s1, t1);
    PageFieldsWf(s1);
    var (count, s4) := PageFields(s1);
    TableSame(s4.(segmentCount := count), PageFields(t1).1.(segmentCount := count), count);
  }

  lemma PageFieldsSame(s: Stream, t: Stream)
    requires SameButError(s, t) && Wf(s)
    ensures Wf(t) && PageFields(s).0 == PageFields(t).0 && SameButError(PageFields(s).1, PageFields(t).1)
  {
    hide Skip;
    var (flag, s2) := Ogg.Get8(s);
    SkipSame(s2.(pageFlag := flag), Ogg.Get8(t).1.(pageFlag := flag), 20);
    SkipWf(s2.(pageFlag := flag), 20);
  }

  lemma SkipSame(s: Stream, t: Stream, n: nat)
    requires SameButError(s, t) && Wf(s)
    ensures Wf(t) && SameButError(Skip(s, n), Skip(t, n))
  {}

  lemma TableSame(s: Stream, t: Stream, n: nat)
    requires SameButError(s, t) && Wf(s) && n <= 255
    ensures Wf(t) && GetTable(s, n).0 == GetTable(t, n).0 && SameButError(GetTable(s, n).1, GetTable(t, n).1)
  {}

  lemma StartPageSame(s: Stream, t: Stream)
    requires SameButError(s, t) && Wf(s) && s.nextSeg == -1
    ensures Wf(t) && Ogg.StartPage(s).0 == Ogg.StartPage(t).0 && SameButError(Ogg.StartPage(s).1, Ogg.StartPage(t).1)
  {
    hide Capture, StartPageBody;
    CaptureSame(s, t, 0);
    CaptureWf(s, 0);
    CaptureWf(t, 0);
    if Capture(s, 0).0 { StartPageBodySame(Capture(s, 0).1, Capture(t, 0).1); }
  }

  lemma NextSegmentSame(s: Stream, t: Stream)
    requires SameButError(s, t) && Wf(s)
    ensures Wf(t) && Ogg.NextSegment(s).0 == Ogg.NextSegment(t).0
    ensures SameButError(Ogg.NextSegment(s).1, Ogg.NextSegment(t).1)
  {
    hide Ogg.StartPage;
    if s.nextSeg == -1 {
      StartPageWf(s);
      StartPageWf(t);
      StartPageSame(s, t);
    }
  }

  lemma Get8PacketSame(s: Stream, t: Stream)
    requires SameButError(s, t) && Wf(s)
    ensures Wf(t) && Get8Packet(s).0 == Get8Packet(t).0 && SameButError(Get8Packet(s).1, Get8Packet(t).1)
  {
    hide Ogg.NextSegment;
    NextSegmentSame(s, t);
    NextSegmentWf(s);
  }

  lemma {:induction false} DrainSame(s: Stream, t: Stream)
    requires SameButError(s, t) && Wf(s)
    ensures Wf(t) && Drain(s).0 == Drain(t).0 && SameButError(Drain(s).1, Drain(t).1)
    decreases |s.data| - s.pos, SegmentsLeft(s), s.bytesInSeg
  {
    hide Get8Packet, Drain;
    Get8PacketSame(s, t);
    Get8PacketWf(s);
    Lacing.DrainUnfold(s);
    Lacing.DrainUnfold(t);
    if Get8Packet(s).0 != EOP { DrainSame(Get8Packet(s).1, Get8Packet(t).1); }
  }

  /** The accumulator is topped up if it may hold too little for the fast table. */
  method PrepFast(f: Decoder)
    requires Decodable(f)
    modifies f`pos, f`eof, f`error, f`pageFlag, f`segmentCount, f`nextSeg, f`lastSeg, f`bytesInSeg, f.segments
    modifies f`acc, f`validBits
    ensures Decodable(f) && (old(EndsCleanly(f.State())) ==> EndsCleanly(f.State()))
    ensures BitsOf(f) == old(Readied(f)) && (old(Supplied(f)) ==> Supplied(f))
  {
    hide Drain, Decode.Prep, Topped;
    Decode.PrepNotInvalid(BitsOf(f));
    ghost var bits := BitsOf(f);
    if f.validBits < FAST_LENGTH {
      PrepHuffman(f);
      Decode.PrepAgain(bits);
    }
  }

  /** `DECODE_RAW`: the fast table, then the slower decoders. */
  method DecodeRaw(f: Decoder, c: Codebook) returns (x: int)
    requires Decodable(f) && Decode.Usable(BookOf(c))
    modifies f`pos, f`eof, f`error, f`pageFlag, f`segmentCount, f`nextSeg, f`lastSeg, f`bytesInSeg, f.segments
    modifies f`acc, f`validBits
    ensures Decodable(f) && (old(EndsCleanly(f.State())) ==> EndsCleanly(f.State()))
    ensures -1 <= x < c.codewordLengths.Length && (c.sparse ==> x < c.sortedEntries)
    ensures var (slot, s) := old(Decode.DecodeFrom(BookOf(c), Readied(f)));
            x == slot && f.acc == s.acc && f.validBits == s.valid && (old(Supplied(f)) ==> BitsOf(f) == s)
    ensures old(Supplied(f)) ==> (x, BitsOf(f)) == old(Decode.DecodeSlot(BookOf(c), BitsOf(f)))
  {
    hide Drain, Decode.Prep, Decode.Ready10, Decode.DecodeRaw, Decode.DecodeFrom, Decode.DecodeSlot, EndsCleanly, Supplied,
      Decode.Usable, Shr, Low, Decodable, Wf, Readied;
    DecodableLive(f);
    if Supplied(f) { SuppliedSlot(f, BookOf(c)); }
    Decode.FromIs(BookOf(c), Readied(f));
    PrepFast(f);
    var found;
    found, x := FastTable(f, c);
    if !found { x := CodebookDecodeScalarRaw(f, c); }
  }

  /** The fast table: whether it has a slot for the buffered bits, and then that slot, or -1 if it needs more bits. */
  method FastTable(f: Decoder, c: Codebook) returns (found: bool, x: int)
    requires Decodable(f) && Decode.Usable(BookOf(c))
    modifies f`acc, f`validBits
    ensures Decodable(f) && f.State() == old(f.State())
    ensures -1 <= x < c.codewordLengths.Length && (c.sparse ==> x < c.sortedEntries)
    ensures Low(old(f.acc), FAST_LENGTH) < FAST_SIZE == c.fastHuffman.Length
    ensures var bk, s := BookOf(c), old(BitsOf(f));
            var slot := bk.fast[Low(s.acc, FAST_LENGTH)];
            found == (slot >= 0) &&
            if !found then BitsOf(f) == s
            else
              slot < |bk.slotLens| &&
              (x, BitsOf(f)) == if s.valid < bk.slotLens[slot] then (-1, Reader(Shr(s.acc, bk.slotLens[slot]), 0, s.rest))
                                else (slot, Drop(s, bk.slotLens[slot]))
  {
    hide Shr, Low, Drain;
    Decode.IndexBound(f.acc);
    x := c.fastHuffman[Low(f.acc, FAST_LENGTH)];
    if x < 0 { return false, -1; }
    var n := c.codewordLengths[x];
    f.acc := Shr(f.acc, n);
    f.validBits := f.validBits - n;
    if f.validBits < 0 {
      f.validBits := 0;
      x := -1;
    }
    return true, x;
  }

  /** `DECODE`: the entry, or -1.  The C code has `sorted_values[-1] == -1` instead of the test, which needs a sorted
      table in a sparse codebook. */
  method DecodeEntry(f: Decoder, c: Codebook) returns (x: int)
    requires Decodable(f) && Decode.Usable(BookOf(c)) && (c.sparse ==> c.sortedEntries > 0)
    modifies f`pos, f`eof, f`error, f`pageFlag, f`segmentCount, f`nextSeg, f`lastSeg, f`bytesInSeg, f.segments
    modifies f`acc, f`validBits
    ensures Decodable(f) && (old(EndsCleanly(f.State())) ==> EndsCleanly(f.State()))
    ensures var (slot, s) := old(Decode.DecodeFrom(BookOf(c), Readied(f)));
            x == Decode.SlotEntry(BookOf(c), slot) && f.acc == s.acc && f.validBits == s.valid
    ensures old(Supplied(f)) ==> (x, BitsOf(f)) == old(Decode.DecodeEntry(BookOf(c), BitsOf(f)))
  {
    hide Drain, Decode.DecodeSlot, Decode.DecodeFrom, Decode.Prep, Readied;
    x := DecodeRaw(f, c);
    if c.sparse && x >= 0 { x := c.sortedValues[x]; }
  }

  // ---------------------------------------------------------------- the lookahead

  /** The loop along a segment table of `is_whole_packet_present`. */
  method WalkTable(table: seq<byte>, i: nat, p: nat) returns (s: nat, q: nat)
    requires i <= |table|
    ensures (s, q) == Walk(table, i, p)
    ensures s <= |table|
  {
    s, q := i, p;
    while s < |table|
      invariant i <= s <= |table|
      invariant Walk(table, s, q) == Walk(table, i, p)
    {
      q := q + table[s];
      if table[s] < 255 { return; }
      s := s + 1;
    }
  }

  /** `is_whole_packet_present`. */
  method IsWholePacketPresent(f: Decoder) returns (ok: bool)
    requires Wf(f.State()) && (f.nextSeg >= 0 ==> f.nextSeg <= f.segmentCount)
    modifies f`error
    ensures ok <==> WholePacket(old(f.State()), f.previousLength == 0) == Present
    ensures f.error == if ok then old(f.error) else WholePacket(old(f.State()), f.previousLength == 0).error
  {
    var s, first, p := f.nextSeg, true, f.pos;
    if s != -1 {
      WalkForward(f.segments[..f.segmentCount], s, p);
      s, p := WalkTable(f.segments[..f.segmentCount], s, p);
      if s == f.segmentCount { s := -1; }
      if p > |f.stream| { f.error := NeedMoreData; return false; }
      first := false;
    }
    if s != -1 { return true; }
    ok := WalkStream(f, p, first);
  }

  /** The second loop of `is_whole_packet_present`. */
  method WalkStream(f: Decoder, p0: nat, first0: bool) returns (ok: bool)
    requires p0 <= |f.stream|
    modifies f`error
    ensures ok <==> WalkPages(f.stream, p0, first0, f.previousLength == 0) == Present
    ensures f.error == if ok then old(f.error) else WalkPages(f.stream, p0, first0, f.previousLength == 0).error
  {
    hide Walk;
    var p, first := p0, first0;
    ghost var resync := f.previousLength == 0;
    while true
      invariant p <= |f.stream| && f.error == old(f.error)
      invariant WalkPages(f.stream, p, first, resync) == WalkPages(f.stream, p0, first0, resync)
      decreases |f.stream| - p
    {
      if p + 26 >= |f.stream| { f.error := NeedMoreData; return false; }
      if f.stream[p..p + 4] != CAPTURE { f.error := InvalidStream; return false; }
      if f.stream[p + 4] != 0 { f.error := InvalidStream; return false; }
      if first {
        if f.previousLength != 0 && ContinuedFlag(f.stream[p + 5]) { f.error := InvalidStream; return false; }
      } else {
        if !ContinuedFlag(f.stream[p + 5]) { f.error := InvalidStream; return false; }
      }
      var n, q := f.stream[p + 26], p + 27;
      if q + n > |f.stream| { f.error := NeedMoreData; return false; }
      WalkForward(f.stream[q..q + n], 0, q + n);
      var s, p' := WalkTable(f.stream[q..q + n], 0, q + n);
      if p' > |f.stream| { f.error := NeedMoreData; return false; }
      if s != n { return true; }
      p, first := p', false;
    }
  }
}
