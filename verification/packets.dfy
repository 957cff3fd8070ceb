/** From pages to decoded entries: the layers put together. */
module Packets {
  import opened BitReader
  import opened Bits
  import opened CodebookBuild
  import opened Codebooks
  import opened Codewords
  import opened Decode
  import opened DecodeFields
  import opened HuffmanTables
  import opened Lacing
  import opened Ogg
  import Vorb

  /** The entries of which a packet holds the codewords, possibly followed by more bits. */
  ghost predicate Holds(bk: Book, lens: seq<nat>, codes: seq<nat>, es: seq<nat>, packet: seq<byte>) {
    Ready(bk, lens, codes) && |codes| == |lens| &&
    (forall i :: 0 <= i < |es| ==> Coded(lens, es[i])) &&
    Encode(lens, codes, es) <= BytesBits(packet)
  }

  /** The reader of a packet that was just started, whatever the accumulator held before. */
  function Fresh(acc: nat, packet: seq<byte>): Reader { Reader(acc, 0, packet) }

  /** The entries at the head of a packet are decoded exactly when each is reached and its codeword fits four bytes. */
  lemma PacketDecodes(bk: Book, lens: seq<nat>, codes: seq<nat>, es: seq<nat>, packet: seq<byte>, acc: nat)
    requires Holds(bk, lens, codes, es, packet)
    ensures Usable(bk) && (DecodeRun(bk, Fresh(acc, packet), |es|) == es <==> AllReached(bk, lens, es) && Fits(lens, es, 0))
  {
    hide Ready, Usable, Encode, DecodeRun, Fits, AllReached, BytesBits;
    ReadyUsable(bk, lens, codes);
    FreshStart(acc, packet);
    StreamDecodes(bk, lens, codes, es, Fresh(acc, packet), 0);
  }

  lemma FreshStart(acc: nat, packet: seq<byte>)
    ensures Decode.At(Fresh(acc, packet), 0) && Pending(Fresh(acc, packet)) == BytesBits(packet)
  {
    hide BytesBits;
  }

  /** However the packets are split over pages: behind the first `k` packets the next one starts, and all its bytes
      arrive. */
  lemma NextPacket(pages: seq<Page>, packets: seq<seq<byte>>, s: Stream, k: nat)
    requires Carries(pages, packets) && k < |packets|
    requires s.data == StreamBytes(pages) && s.pos == 0 && !s.eof && s.nextSeg == -1 && s.bytesInSeg == 0
    requires |s.segments| == 255 && s.segmentCount <= 255
    ensures Wf(s) && Wf(ReadPackets(s, k).1) && ReadPackets(s, k).0 == packets[..k]
    ensures var (ok, t) := StartPacket(ReadPackets(s, k).1); ok && Wf(t) && Drain(t).0 == packets[k]
  {
    hide Carries, LacedAhead, StreamBytes, ReadPackets, StartPacket, Drain;
    WholeStream(pages, packets, s);
    var a := ReadsLaced(s, Ahead([], [], pages, false), packets, k);
    AheadWf(ReadPackets(s, k).1, a, packets[k..]);
    var b := OnePacket(ReadPackets(s, k).1, a, packets[k..]);
  }

  /** Then its entries are decoded exactly when each is reached and its codeword fits four bytes. */
  lemma StreamOfPackets(pages: seq<Page>, packets: seq<seq<byte>>, s: Stream, k: nat, bk: Book, lens: seq<nat>,
                        codes: seq<nat>, es: seq<nat>, acc: nat)
    requires Carries(pages, packets) && k < |packets|
    requires s.data == StreamBytes(pages) && s.pos == 0 && !s.eof && s.nextSeg == -1 && s.bytesInSeg == 0
    requires |s.segments| == 255 && s.segmentCount <= 255
    requires Holds(bk, lens, codes, es, packets[k])
    ensures Wf(s) && Wf(ReadPackets(s, k).1) && ReadPackets(s, k).0 == packets[..k] && Usable(bk)
    ensures var (ok, t) := StartPacket(ReadPackets(s, k).1);
            ok && Wf(t) && Drain(t).0 == packets[k] &&
            (DecodeRun(bk, Fresh(acc, Drain(t).0), |es|) == es <==> AllReached(bk, lens, es) && Fits(lens, es, 0))
  {
    hide Carries, StreamBytes, ReadPackets, StartPacket, Drain, Holds, Usable, DecodeRun, Fits, AllReached;
    NextPacket(pages, packets, s, k);
    PacketDecodes(bk, lens, codes, es, packets[k], acc);
  }

  /** And so are its fields and entries, of any codebooks and in any order. */
  lemma StreamOfFields(pages: seq<Page>, packets: seq<seq<byte>>, s: Stream, k: nat, items: seq<Item>, acc: nat)
    requires Carries(pages, packets) && k < |packets|
    requires s.data == StreamBytes(pages) && s.pos == 0 && !s.eof && s.nextSeg == -1 && s.bytesInSeg == 0
    requires |s.segments| == 255 && s.segmentCount <= 255
    requires ItemsOk(items) && Layout(items) <= BytesBits(packets[k])
    ensures Wf(s) && Wf(ReadPackets(s, k).1) && ReadPackets(s, k).0 == packets[..k]
    ensures var (ok, t) := StartPacket(ReadPackets(s, k).1);
            ok && Wf(t) && Drain(t).0 == packets[k] &&
            (ReadItems(items, Fresh(acc, Drain(t).0)) == DecodeFields.Values(items) <==> AllFitting(items, 0))
  {
    hide Carries, StreamBytes, ReadPackets, StartPacket, Drain, ItemsOk, Layout, ReadItems, DecodeFields.Values, AllFitting, BytesBits;
    NextPacket(pages, packets, s, k);
    FreshStart(acc, packets[k]);
    PacketReads(items, Fresh(acc, packets[k]), 0);
  }

  // ---------------------------------------------------------------- on the decoder object

  /** The first of `k` entries. */
  method DecodeOne(f: Vorb.Decoder, c: Codebook, ghost k: nat) returns (x: int)
    requires Vorb.Decodable(f) && Usable(BookOf(c)) && k > 0 && (c.sparse ==> c.sortedEntries > 0)
    modifies f`pos, f`eof, f`error, f`pageFlag, f`segmentCount, f`nextSeg, f`lastSeg, f`bytesInSeg, f.segments
    modifies f`acc, f`validBits
    ensures Vorb.Decodable(f) && Wf(f.State()) && Live(Vorb.BitsOf(f))
    ensures old(Vorb.EndsCleanly(f.State())) ==>
              Vorb.EndsCleanly(f.State()) &&
              old(DecodeRun(BookOf(c), Vorb.BitsOf(f), k)) == [x] + DecodeRun(old(BookOf(c)), Vorb.BitsOf(f), k - 1)
  {
    hide Drain, Usable, DecodeEntry, DecodeFrom, DecodeRun, Vorb.EndsCleanly, Vorb.Decodable, Vorb.Supplied, Vorb.Readied, Wf;
    Vorb.DecodableLive(f);
    RunFirst(BookOf(c), Vorb.BitsOf(f), k);
    if Vorb.EndsCleanly(f.State()) { Vorb.CleanIsSupplied(f); }
    x := Vorb.DecodeEntry(f, c);
    Vorb.DecodableLive(f);
  }

  /** `DECODE`, `k` times. */
  method DecodeEntries(f: Vorb.Decoder, c: Codebook, k: nat) returns (xs: seq<int>)
    requires Vorb.Decodable(f) && Usable(BookOf(c)) && (c.sparse && k > 0 ==> c.sortedEntries > 0)
    modifies f`pos, f`eof, f`error, f`pageFlag, f`segmentCount, f`nextSeg, f`lastSeg, f`bytesInSeg, f.segments
    modifies f`acc, f`validBits
    ensures Vorb.Decodable(f) && |xs| == k
    ensures old(Vorb.EndsCleanly(f.State())) ==>
              Vorb.EndsCleanly(f.State()) && xs == old(DecodeRun(BookOf(c), Vorb.BitsOf(f), k))
  {
    hide Drain, Usable, DecodeRun, Vorb.EndsCleanly, Vorb.Decodable, Wf;
    xs := [];
    Vorb.DecodableLive(f);
    ghost var clean, bk, s := Vorb.EndsCleanly(f.State()), BookOf(c), Vorb.BitsOf(f);
    for i := 0 to k
      invariant Vorb.Decodable(f) && Wf(f.State()) && Live(Vorb.BitsOf(f)) && BookOf(c) == bk && |xs| == i
      invariant clean ==> Vorb.EndsCleanly(f.State()) && xs + DecodeRun(bk, Vorb.BitsOf(f), k - i) == DecodeRun(bk, s, k)
    {
      ghost var before := xs;
      var x := DecodeOne(f, c, k - i);
      xs := xs + [x];
      Vorb.DecodableLive(f);
      Append(before, x, DecodeRun(bk, Vorb.BitsOf(f), k - i - 1));
    }
    NothingCoded(bk, [], Vorb.BitsOf(f), 0);
  }

  lemma Append(xs: seq<int>, x: int, rest: seq<int>)
    ensures xs + ([x] + rest) == xs + [x] + rest
  {}

  /** A sparse codebook with a coded entry has a sorted table. */
  lemma SomeCoded(bk: Book, lens: seq<nat>, codes: seq<nat>, es: seq<nat>, packet: seq<byte>)
    requires Holds(bk, lens, codes, es, packet) && es != []
    ensures bk.sparse ==> bk.sortedEntries > 0
  {
    hide ValidBook, DenseReady, FastReady, Encode, SortedTable, IncludedEntries;
    if bk.sparse { var t := IncludedEntriesComplete(lens, true, |lens|, es[0]); }
  }

  /** Starting the next packet of a stream and decoding its entries. */
  method DecodePacket(f: Vorb.Decoder, c: Codebook, k: nat, ghost a: Ahead, ghost packets: seq<seq<byte>>,
                      ghost lens: seq<nat>, ghost codes: seq<nat>, ghost es: seq<nat>)
    returns (ok: bool, xs: seq<int>)
    requires LacedAhead(f.State(), a, packets) && packets != [] && |es| == k
    requires Holds(BookOf(c), lens, codes, es, packets[0])
    modifies f`pos, f`eof, f`error, f`pageFlag, f`segmentCount, f`nextSeg, f`lastSeg, f`bytesInSeg, f.segments
    modifies f`acc, f`validBits
    ensures ok && (xs == es <==> AllReached(BookOf(c), lens, es) && Fits(lens, es, 0))
  {
    hide LacedAhead, Ogg.StartPacket, Drain, Holds, Usable, DecodeRun, Fits, AllReached;
    ghost var bk, s := BookOf(c), f.State();
    AheadWf(s, a, packets);
    ghost var b := OnePacket(s, a, packets);
    ok := Vorb.StartPacket(f);
    PacketDecodes(bk, lens, codes, es, packets[0], f.acc);
    if es != [] { SomeCoded(bk, lens, codes, es, packets[0]); }
    xs := DecodeEntries(f, c, k);
  }
}
