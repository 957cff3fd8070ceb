/** The circular audio buffer against the history of all samples received. */
module AudioAsync {
  import opened Bits

  /** A 32-bit sample as its four bytes. */
  datatype Sample = Sample(b0: byte, b1: byte, b2: byte, b3: byte)

  /** `n` samples of a byte stream from the given byte on. */
  function SamplesFrom(stream: seq<byte>, from: nat, n: nat): (r: seq<Sample>)
    requires from + 4 * n <= |stream|
    ensures |r| == n
  {
    seq(n, i requires 0 <= i < n =>
      Sample(stream[from + 4 * i], stream[from + 4 * i + 1], stream[from + 4 * i + 2], stream[from + 4 * i + 3]))
  }

  /** The samples that a callback delivers: as many as are whole. */
  function Delivered(stream: seq<byte>): (r: seq<Sample>)
    ensures |r| == |stream| / 4
  {
    SamplesFrom(stream, 0, |stream| / 4)
  }

  /** The samples that a callback stores: at most a buffer of them, read up to the end of the stream. */
  function Stored(stream: seq<byte>, capacity: nat): (r: seq<Sample>) {
    var n := |stream| / 4;
    if n > capacity then SamplesFrom(stream, |stream| - 4 * capacity, capacity) else SamplesFrom(stream, 0, n)
  }

  function BytesOf(samples: seq<Sample>): seq<byte> {
    if samples == [] then []
    else [samples[0].b0, samples[0].b1, samples[0].b2, samples[0].b3] + BytesOf(samples[1..])
  }

  /** The samples of a stream are its bytes, in their order. */
  lemma {:induction false} SamplesAreBytes(stream: seq<byte>, from: nat, n: nat)
    requires from + 4 * n <= |stream|
    ensures BytesOf(SamplesFrom(stream, from, n)) == stream[from..from + 4 * n]
    decreases n
  {
    var all := SamplesFrom(stream, from, n);
    if n > 0 {
      SamplesAreBytes(stream, from + 4, n - 1);
      assert all[1..] == SamplesFrom(stream, from + 4, n - 1);
      assert stream[from..from + 4 * n] == stream[from..from + 4] + stream[from + 4..from + 4 * n];
      assert stream[from..from + 4] == [all[0].b0, all[0].b1, all[0].b2, all[0].b3];
    }
  }

  /** A callback delivers all its bytes but those behind the last whole sample. */
  lemma DeliveredBytes(stream: seq<byte>)
    ensures var n := |BytesOf(Delivered(stream))|;
            n <= |stream| < n + 4 && n % 4 == 0 && BytesOf(Delivered(stream)) == stream[..n]
  {
    hide SamplesFrom, BytesOf;
    SamplesAreBytes(stream, 0, |stream| / 4);
  }

  /** What happens to a running buffer, one atomic step each. */
  datatype Event = Callback(stream: seq<byte>) | Clear

  function Last<T>(s: seq<T>, n: nat): (r: seq<T>)
    ensures |r| == if n < |s| then n else |s|
  {
    if n < |s| then s[|s| - n..] else s
  }

  /** All samples received since the last clear. */
  function History(events: seq<Event>): seq<Sample> {
    if events == [] then []
    else
      var before, e := events[..|events| - 1], events[|events| - 1];
      match e case Clear => [] case Callback(stream) => History(before) + Delivered(stream)
  }

  /** The samples that the buffer keeps of a run. */
  function Kept(events: seq<Event>, capacity: nat): (r: seq<Sample>)
    ensures |r| <= capacity
  {
    if events == [] then []
    else
      var before, e := events[..|events| - 1], events[|events| - 1];
      match e case Clear => [] case Callback(stream) => Last(Kept(before, capacity) + Stored(stream, capacity), capacity)
  }

  // ---------------------------------------------------------------- kept is the end of the history

  /** A callback that is not longer than the buffer, or whose bytes make whole samples. */
  predicate Aligned(stream: seq<byte>, capacity: nat) {
    |stream| % 4 == 0 || |stream| / 4 <= capacity
  }

  lemma StoredIsLast(stream: seq<byte>, capacity: nat)
    requires Aligned(stream, capacity)
    ensures Stored(stream, capacity) == Last(Delivered(stream), capacity)
  {
    var n := |stream| / 4;
    if n > capacity {
      assert |stream| - 4 * capacity == 4 * (n - capacity);
      LateSamples(stream, n, n - capacity);
    }
  }

  /** Skipping `k` samples of a stream. */
  lemma LateSamples(stream: seq<byte>, n: nat, k: nat)
    requires 4 * n <= |stream| && k <= n
    ensures SamplesFrom(stream, 0, n)[k..] == SamplesFrom(stream, 4 * k, n - k)
  {
    forall i | k <= i < n
      ensures SamplesFrom(stream, 0, n)[i] == SamplesFrom(stream, 4 * k, n - k)[i - k]
    {
      assert 4 * i == 4 * k + 4 * (i - k);
    }
  }

  /** An overlong callback with bytes left over is read from the middle of a sample: whether a callback of a
      given length stores the last samples it delivers, whatever the bytes, is decided by `Aligned`. */
  lemma StoredIsLastIffAligned(length: nat, capacity: nat)
    requires capacity > 0
    ensures (forall stream: seq<byte> :: |stream| == length ==> Stored(stream, capacity) == Last(Delivered(stream), capacity)) <==>
            (length % 4 == 0 || length / 4 <= capacity)
  {
    if length % 4 == 0 || length / 4 <= capacity {
      forall stream: seq<byte> | |stream| == length
        ensures Stored(stream, capacity) == Last(Delivered(stream), capacity)
      {
        StoredIsLast(stream, capacity);
      }
    } else {
      var n := length / 4;
      var from := length - 4 * capacity;
      var stream: seq<byte> := seq(length, i => if i == from then 1 else 0);
      var first := 4 * (n - capacity);
      assert from == first + length % 4;
      assert Stored(stream, capacity)[0].b0 == stream[from] == 1;
      assert Last(Delivered(stream), capacity)[0] == Delivered(stream)[n - capacity];
      assert Delivered(stream)[n - capacity].b0 == stream[first] == 0;
    }
  }

  lemma LastOfJoin<T>(a: seq<T>, b: seq<T>, n: nat)
    ensures Last(a + b, n) == if |b| >= n then Last(b, n) else Last(a, n - |b|) + b
  {}

  lemma LastLast<T>(s: seq<T>, n: nat, m: nat)
    requires m <= n
    ensures Last(Last(s, n), m) == Last(s, m)
    ensures |s| <= n ==> Last(s, n) == s
  {}

  lemma LastOfAll<T>(s: seq<T>, n: nat)
    ensures Last(s, n) == Last(s, if n > |s| then |s| else n)
  {}

  /** The callbacks that delivered the last `m` samples since the last clear are all aligned. */
  ghost predicate Recent(events: seq<Event>, capacity: nat, m: nat)
    decreases |events|
  {
    if m == 0 || events == [] || events[|events| - 1].Clear? then true
    else
      var stream := events[|events| - 1].stream;
      Aligned(stream, capacity) &&
      Recent(events[..|events| - 1], capacity, if |stream| / 4 >= m then 0 else m - |stream| / 4)
  }

  lemma LastOfNothing<T>(s: seq<T>)
    ensures Last(s, 0) == []
  {}

  /** The last samples after one more callback, of what is kept and of what was received. */
  lemma LastAfter(kept: seq<Sample>, history: seq<Sample>, delivered: seq<Sample>, capacity: nat, m: nat)
    requires m <= capacity
    ensures var now := Last(kept + Last(delivered, capacity), capacity);
            if |delivered| >= m then Last(now, m) == Last(history + delivered, m) == Last(delivered, m)
            else
              Last(now, m) == Last(kept, m - |delivered|) + delivered &&
              Last(history + delivered, m) == Last(history, m - |delivered|) + delivered
  {
    hide Last;
    var stored := Last(delivered, capacity);
    LastLast(kept + stored, capacity, m);
    LastLast(delivered, capacity, m);
    LastOfJoin(kept, stored, m);
    LastOfJoin(history, delivered, m);
  }

  /** Where the last `m` samples come from aligned callbacks, the buffer keeps the last `m` samples received. */
  lemma {:induction false} KeptIsLast(events: seq<Event>, capacity: nat, m: nat)
    requires m <= capacity && Recent(events, capacity, m)
    ensures Last(Kept(events, capacity), m) == Last(History(events), m)
    decreases |events|
  {
    hide Stored, Aligned, Delivered, Last;
    if m == 0 {
      LastOfNothing(Kept(events, capacity));
      LastOfNothing(History(events));
    } else if events != [] && events[|events| - 1].Callback? {
      var before, stream := events[..|events| - 1], events[|events| - 1].stream;
      var delivered := Delivered(stream);
      StoredIsLast(stream, capacity);
      LastAfter(Kept(before, capacity), History(before), delivered, capacity, m);
      if |delivered| < m { KeptIsLast(before, capacity, m - |delivered|); }
    }
  }

  // ---------------------------------------------------------------- and exactly then

  /** The same clears, and callbacks of the same lengths. */
  ghost predicate SameShape(a: seq<Event>, b: seq<Event>) {
    |a| == |b| && forall i :: 0 <= i < |a| ==> SameKind(a[i], b[i])
  }

  predicate SameKind(a: Event, b: Event) {
    match a case Clear => b.Clear? case Callback(stream) => b.Callback? && |b.stream| == |stream|
  }

  /** Which callbacks are aligned does not depend on the bytes. */
  lemma {:induction false} RecentOfShape(a: seq<Event>, b: seq<Event>, capacity: nat, m: nat)
    requires SameShape(a, b)
    ensures Recent(a, capacity, m) == Recent(b, capacity, m)
    decreases |a|
  {
    if m > 0 && a != [] && a[|a| - 1].Callback? {
      var n := |a| - 1;
      assert SameKind(a[n], b[n]);
      var k := |a[n].stream| / 4;
      RecentOfShape(a[..n], b[..n], capacity, if k >= m then 0 else m - k);
    }
  }

  /** A stream whose last byte alone is 1. */
  function Spike(length: nat): (stream: seq<byte>)
    ensures |stream| == length
  {
    seq(length, i => if i == length - 1 then 1 else 0)
  }

  /** Read up to its end, the last sample holds that byte; the last whole sample does not. */
  lemma SpikeDiffers(length: nat, capacity: nat)
    requires capacity > 0 && !Aligned(Spike(length), capacity)
    ensures |Stored(Spike(length), capacity)| == capacity && |Delivered(Spike(length))| > capacity
    ensures Stored(Spike(length), capacity)[capacity - 1].b3 == 1
    ensures var d := Delivered(Spike(length)); d[|d| - 1].b3 == 0
  {
    var stream := Spike(length);
    var n := length / 4;
    assert length - 4 * capacity + 4 * (capacity - 1) + 3 == length - 1;
    assert Stored(stream, capacity)[capacity - 1].b3 == stream[length - 1];
    assert Delivered(stream)[n - 1].b3 == stream[4 * (n - 1) + 3];
  }

  lemma LastOne<T>(s: seq<T>, m: nat)
    requires 0 < m && s != []
    ensures var l := Last(s, m); l != [] && l[|l| - 1] == s[|s| - 1]
  {}

  /** One unaligned callback within reach, with the right bytes, leaves a sample that was never received. */
  lemma SpikeShows(kept: seq<Sample>, history: seq<Sample>, length: nat, capacity: nat, m: nat)
    requires 0 < m <= capacity && !Aligned(Spike(length), capacity)
    ensures Last(Last(kept + Stored(Spike(length), capacity), capacity), m) != Last(history + Delivered(Spike(length)), m)
  {
    hide Stored, Delivered, Aligned, Spike, Last;
    SpikeDiffers(length, capacity);
    var stored, delivered := Stored(Spike(length), capacity), Delivered(Spike(length));
    LastOfJoin(kept, stored, capacity);
    LastLast(stored, capacity, m);
    LastOfJoin(history, delivered, m);
    LastOne(stored, m);
    LastOne(delivered, m);
  }

  lemma AlignedByLength(a: seq<byte>, b: seq<byte>, capacity: nat)
    requires |a| == |b|
    ensures Aligned(a, capacity) == Aligned(b, capacity)
  {}

  lemma ShapeMore(a: seq<Event>, b: seq<Event>, x: Event, y: Event)
    requires SameShape(a, b) && SameKind(x, y)
    ensures SameShape(a + [x], b + [y])
  {
    hide SameKind;
  }

  lemma {:induction false} SameAsItself(a: seq<Event>)
    ensures SameShape(a, a)
  {}

  lemma AllButLast(events: seq<Event>)
    requires events != []
    ensures events == events[..|events| - 1] + [events[|events| - 1]]
  {}

  lemma HistoryMore(events: seq<Event>, stream: seq<byte>)
    ensures History(events + [Callback(stream)]) == History(events) + Delivered(stream)
  {
    assert (events + [Callback(stream)])[..|events|] == events;
  }

  lemma StillDiffers<T>(a: seq<T>, b: seq<T>, c: seq<T>)
    requires a != b
    ensures a + c != b + c
  {
    assert (a + c)[..|a|] == a && (b + c)[..|b|] == b;
  }

  /** Otherwise the same run with other bytes in one callback is kept wrong. */
  lemma {:induction false} Disagrees(events: seq<Event>, capacity: nat, m: nat) returns (other: seq<Event>)
    requires m <= capacity && !Recent(events, capacity, m)
    ensures SameShape(events, other) && Last(Kept(other, capacity), m) != Last(History(other), m)
    decreases |events|
  {
    hide Stored, Delivered, Last, Spike, Aligned, Kept, History, SameShape;
    AllButLast(events);
    var before, stream := events[..|events| - 1], events[|events| - 1].stream;
    other := before;
    var bytes := stream;
    if Aligned(stream, capacity) {
      StoredIsLast(stream, capacity);
      other := Disagrees(before, capacity, m - |stream| / 4);
      LastAfter(Kept(other, capacity), History(other), Delivered(stream), capacity, m);
      StillDiffers(Last(Kept(other, capacity), m - |stream| / 4), Last(History(other), m - |stream| / 4), Delivered(stream));
    } else {
      bytes := Spike(|stream|);
      AlignedByLength(stream, bytes, capacity);
      SpikeShows(Kept(before, capacity), History(before), |stream|, capacity, m);
      SameAsItself(before);
    }
    ShapeMore(before, other, Callback(stream), Callback(bytes));
    KeptMore(other, bytes, capacity);
    HistoryMore(other, bytes);
    other := other + [Callback(bytes)];
  }

  ghost predicate Keeps(events: seq<Event>, capacity: nat, m: nat) {
    Last(Kept(events, capacity), m) == Last(History(events), m)
  }

  /** For a run of given clears and callback lengths: the buffer keeps the last `m` samples received, whatever the
      bytes are, exactly if the callbacks that delivered these samples are aligned. */
  lemma KeptIsLastIffRecent(events: seq<Event>, capacity: nat, m: nat)
    requires m <= capacity
    ensures (forall other :: SameShape(events, other) ==> Keeps(other, capacity, m)) <==> Recent(events, capacity, m)
  {
    hide Kept, History, Last, SameShape, Recent;
    if Recent(events, capacity, m) {
      forall other | SameShape(events, other)
        ensures Keeps(other, capacity, m)
      {
        RecentOfShape(events, other, capacity, m);
        KeptIsLast(other, capacity, m);
      }
    } else {
      var other := Disagrees(events, capacity, m);
      assert !Keeps(other, capacity, m);
    }
  }

  // ---------------------------------------------------------------- an unaligned callback in a run

  /** Behind events without a clear whose callbacks are aligned, what matters is how much they delivered. */
  lemma {:induction false} RecentBehind(before: seq<Event>, after: seq<Event>, capacity: nat, m: nat)
    requires forall i :: 0 <= i < |after| ==> after[i].Callback? && Aligned(after[i].stream, capacity)
    ensures Recent(before + after, capacity, m) <==>
            |History(after)| >= m || Recent(before, capacity, m - |History(after)|)
    decreases |after|
  {
    hide Aligned, Delivered;
    if after == [] {
      assert before + after == before;
    } else {
      var n := |after| - 1;
      var k := |after[n].stream| / 4;
      assert (before + after)[..|before + after| - 1] == before + after[..n];
      assert |History(after)| == |History(after[..n])| + k;
      if m > 0 { RecentBehind(before, after[..n], capacity, if k >= m then 0 else m - k); }
    }
  }

  /** An overlong callback that is not aligned is forgotten exactly when a buffer of later samples has come. */
  lemma UnalignedIsForgotten(before: seq<Event>, stream: seq<byte>, after: seq<Event>, capacity: nat)
    requires !Aligned(stream, capacity)
    requires forall i :: 0 <= i < |after| ==> after[i].Callback? && Aligned(after[i].stream, capacity)
    ensures Recent(before + [Callback(stream)] + after, capacity, capacity) <==> |History(after)| >= capacity
  {
    hide Aligned, History;
    RecentBehind(before + [Callback(stream)], after, capacity, capacity);
  }

  // ---------------------------------------------------------------- slots

  /** The slot `n` places behind `pos`, around the end. */
  function Ahead(capacity: nat, pos: nat, n: nat): (p: nat)
    requires pos < capacity && n <= capacity
    ensures p < capacity && p == (pos + n) % capacity
  {
    if pos + n >= capacity then WrapOnce(capacity, pos + n); pos + n - capacity else NoWrap(capacity, pos + n); pos + n
  }

  lemma NoWrap(capacity: nat, p: nat)
    requires p < capacity
    ensures p % capacity == p
  {}

  lemma WrapOnce(capacity: nat, p: nat)
    requires capacity <= p < 2 * capacity
    ensures p % capacity == p - capacity
  {
    NoWrap(capacity, p - capacity);
    assert p == capacity * 1 + (p - capacity);
  }

  /** The slot of the sample that was stored `k` samples ago. */
  function Slot(capacity: nat, pos: nat, k: nat): (p: nat)
    requires pos < capacity && 0 < k <= capacity
    ensures p < capacity
  {
    if pos >= k then pos - k else pos + capacity - k
  }

  /** The slots before `pos` hold `kept`, the newest sample right before `pos`. */
  ghost predicate Holds(buf: seq<Sample>, pos: nat, kept: seq<Sample>) {
    pos < |buf| && |kept| <= |buf| &&
    forall k :: 0 < k <= |kept| ==> buf[Slot(|buf|, pos, k)] == kept[|kept| - k]
  }

  /** Storing `s` from `pos` on. */
  ghost predicate Wrote(buf: seq<Sample>, buf2: seq<Sample>, pos: nat, s: seq<Sample>) {
    pos < |buf| == |buf2| && |s| <= |buf| &&
    forall i :: 0 <= i < |buf| ==>
      buf2[i] == if pos <= i < pos + |s| then s[i - pos]
                 else if i + |buf| < pos + |s| then s[i + |buf| - pos]
                 else buf[i]
  }

  lemma WroteStraight(buf: seq<Sample>, buf2: seq<Sample>, pos: nat, s: seq<Sample>)
    requires pos < |buf| == |buf2| && pos + |s| <= |buf|
    requires forall i :: 0 <= i < |buf| ==> buf2[i] == if pos <= i < pos + |s| then s[i - pos] else buf[i]
    ensures Wrote(buf, buf2, pos, s)
  {}

  /** The first copy goes up to the end, the second one starts at the first slot. */
  lemma WroteAround(buf: seq<Sample>, buf2: seq<Sample>, pos: nat, s0: seq<Sample>, s1: seq<Sample>)
    requires pos < |buf| == |buf2| && pos + |s0| == |buf| && |s1| <= pos
    requires forall i :: 0 <= i < |buf| ==>
               buf2[i] == if i < |s1| then s1[i] else if pos <= i then s0[i - pos] else buf[i]
    ensures Wrote(buf, buf2, pos, s0 + s1)
  {}

  lemma WroteHolds(buf: seq<Sample>, buf2: seq<Sample>, pos: nat, kept: seq<Sample>, s: seq<Sample>)
    requires Holds(buf, pos, kept) && Wrote(buf, buf2, pos, s)
    ensures Holds(buf2, Ahead(|buf|, pos, |s|), Last(kept + s, |buf|))
  {
    var cap, all := |buf|, kept + s;
    var now, pos2 := Last(all, cap), Ahead(cap, pos, |s|);
    forall k | 0 < k <= |now|
      ensures buf2[Slot(cap, pos2, k)] == now[|now| - k]
    {
      assert now[|now| - k] == all[|all| - k];
      var p := Slot(cap, pos2, k);
      if k <= |s| {
        assert buf2[p] == s[|s| - k];
      } else {
        assert p == Slot(cap, pos, k - |s|);
        assert buf2[p] == buf[p];
      }
    }
  }

  /** Reading the last `n` samples, around the end. */
  lemma ReadLast(buf: seq<Sample>, pos: nat, kept: seq<Sample>, n: nat)
    requires Holds(buf, pos, kept) && n <= |kept|
    ensures var s0 := if pos >= n then pos - n else pos + |buf| - n;
            Last(kept, n) == if s0 + n > |buf| then buf[s0..] + buf[..n - (|buf| - s0)] else buf[s0..s0 + n]
  {
    var cap := |buf|;
    var s0 := if pos >= n then pos - n else pos + cap - n;
    var r := if s0 + n > cap then buf[s0..] + buf[..n - (cap - s0)] else buf[s0..s0 + n];
    forall i | 0 <= i < n
      ensures r[i] == kept[|kept| - n + i]
    {
      assert r[i] == buf[Slot(cap, pos, n - i)];
    }
  }

  /** The whole samples in `ms` milliseconds. */
  function SampleCount(rate: nat, ms: nat): (n: nat)
    ensures 1000 * n <= rate * ms < 1000 * (n + 1)
  {
    rate * ms / 1000
  }

  // ---------------------------------------------------------------- the buffer

  class Audio {
    const lenMs: nat
    const sampleRate: nat
    const audio: array<Sample>
    var running: bool
    var pos: nat
    var len: nat
    /** Everything that happened while the buffer was running. */
    ghost var events: seq<Event>

    ghost predicate Valid()
      reads this, audio
    {
      audio.Length == SampleCount(sampleRate, lenMs) && len == |Kept(events, audio.Length)| && Holds(audio[..], pos, Kept(events, audio.Length))
    }

    /** The buffer that `init` leaves: all samples of the given time, and at least one. */
    constructor (lenMs: nat, sampleRate: nat)
      requires 1000 <= sampleRate * lenMs
      ensures Valid() && events == [] && !running && fresh(audio)
      ensures 1000 * audio.Length <= sampleRate * lenMs < 1000 * (audio.Length + 1)
      ensures this.lenMs == lenMs && this.sampleRate == sampleRate
    {
      var capacity := SampleCount(sampleRate, lenMs);
      this.lenMs := lenMs;
      this.sampleRate := sampleRate;
      audio := new Sample[capacity](_ => Sample(0, 0, 0, 0));
      running, pos, len := false, 0, 0;
      events := [];
    }

    method Resume() returns (ok: bool)
      requires Valid()
      modifies this`running
      ensures Valid() && running && ok == !old(running)
    {
      hide Holds, Kept;
      ok := !running;
      running := true;
    }

    method Pause() returns (ok: bool)
      requires Valid()
      modifies this`running
      ensures Valid() && !running && ok == old(running)
    {
      hide Holds, Kept;
      ok := running;
      running := false;
    }

    method ClearBuffer() returns (ok: bool)
      requires Valid()
      modifies this
      ensures Valid() && ok == running == old(running)
      ensures events == if running then old(events) + [Clear] else old(events)
    {
      if !running { return false; }
      pos, len := 0, 0;
      events := events + [Clear];
      return true;
    }

    /** Copies samples from the stream into consecutive slots. */
    method CopyIn(at: nat, stream: seq<byte>, from: nat, n: nat)
      requires at + n <= audio.Length && from + 4 * n <= |stream|
      modifies audio
      ensures forall i :: 0 <= i < audio.Length ==>
                audio[i] == if at <= i < at + n then SamplesFrom(stream, from, n)[i - at] else old(audio[i])
    {
      for k := 0 to n
        invariant forall i :: 0 <= i < audio.Length ==>
                    audio[i] == if at <= i < at + k then SamplesFrom(stream, from, n)[i - at] else old(audio[i])
      {
        var p := from + 4 * k;
        audio[at + k] := Sample(stream[p], stream[p + 1], stream[p + 2], stream[p + 3]);
      }
    }

    /** The copies of a callback: one, or two around the end. */
    method Store(stream: seq<byte>, from: nat, nSamples: nat)
      requires pos < audio.Length && nSamples <= audio.Length && from + 4 * nSamples <= |stream|
      modifies audio
      ensures Wrote(old(audio[..]), audio[..], pos, SamplesFrom(stream, from, nSamples))
    {
      hide Wrote, SamplesFrom;
      ghost var buf := audio[..];
      if pos + nSamples > audio.Length {
        var n0 := audio.Length - pos;
        SplitSamples(stream, from, nSamples, n0);
        CopyIn(pos, stream, from, n0);
        CopyIn(0, stream, from + n0 * 4, nSamples - n0);
        WroteAround(buf, audio[..], pos, SamplesFrom(stream, from, n0), SamplesFrom(stream, from + n0 * 4, nSamples - n0));
      } else {
        CopyIn(pos, stream, from, nSamples);
        WroteStraight(buf, audio[..], pos, SamplesFrom(stream, from, nSamples));
      }
    }

    method HandleCallback(stream: seq<byte>)
      requires Valid()
      modifies this, audio
      ensures Valid() && running == old(running)
      ensures events == if running then old(events) + [Callback(stream)] else old(events)
    {
      hide Holds, Kept, Wrote;
      if !running { return; }
      var nSamples := |stream| / 4;
      var from := 0;
      if nSamples > audio.Length {
        nSamples := audio.Length;
        from := |stream| - nSamples * 4;
      }
      ghost var buf, kept := audio[..], Kept(events, audio.Length);
      HoldsInside(buf, pos, kept);
      Store(stream, from, nSamples);
      WroteHolds(buf, audio[..], pos, kept, SamplesFrom(stream, from, nSamples));
      KeptMore(events, stream, audio.Length);
      pos := (pos + nSamples) % audio.Length;
      len := if len + nSamples < audio.Length then len + nSamples else audio.Length;
      events := events + [Callback(stream)];
    }

    /** `get`: the last samples, oldest first; the vector is left alone while the buffer is not running. */
    method Get(ms0: int, before: seq<Sample>) returns (result: seq<Sample>)
      requires Valid()
      ensures result == if running then Last(Kept(events, audio.Length), SampleCount(sampleRate, if ms0 <= 0 then lenMs else ms0))
                        else before
      ensures running && (ms0 <= 0 || ms0 == lenMs) ==> result == Kept(events, audio.Length)
    {
      hide Holds, Kept, SampleCount, Last;
      if !running { return before; }
      var ms := if ms0 <= 0 then lenMs else ms0;
      var n := SampleCount(sampleRate, ms);
      ghost var kept := Kept(events, audio.Length);
      LastOfAll(kept, n);
      LastLast(kept, n, n);
      if n > len { n := len; }
      HoldsInside(audio[..], pos, kept);
      ReadLast(audio[..], pos, kept, n);
      var s0: int := pos - n;
      if s0 < 0 { s0 := s0 + audio.Length; }
      if s0 + n > audio.Length {
        var n0 := audio.Length - s0;
        result := audio[s0..] + audio[..n - n0];
      } else {
        result := audio[s0..s0 + n];
      }
    }

    /** `get` agrees with the history of all samples received where the callbacks that delivered the samples it
        returns are aligned. */
    lemma GetAgreesWithHistory(n: nat)
      requires Valid() && Recent(events, audio.Length, if n < audio.Length then n else audio.Length)
      ensures Last(Kept(events, audio.Length), n) == Last(History(events), if n < audio.Length then n else audio.Length)
    {
      hide Holds, Kept, Recent, Last;
      var m := if n < audio.Length then n else audio.Length;
      KeptIsLast(events, audio.Length, m);
      LastOfAll(Kept(events, audio.Length), n);
      LastOfAll(Kept(events, audio.Length), m);
    }
  }

  lemma HoldsInside(buf: seq<Sample>, pos: nat, kept: seq<Sample>)
    requires Holds(buf, pos, kept)
    ensures pos < |buf| && |kept| <= |buf|
  {}

  lemma SplitSamples(stream: seq<byte>, from: nat, n: nat, k: nat)
    requires from + 4 * n <= |stream| && k <= n
    ensures SamplesFrom(stream, from, n) == SamplesFrom(stream, from, k) + SamplesFrom(stream, from + 4 * k, n - k)
  {
    forall i | k <= i < n
      ensures SamplesFrom(stream, from, n)[i] == SamplesFrom(stream, from + 4 * k, n - k)[i - k]
    {
      assert from + 4 * i == from + 4 * k + 4 * (i - k);
    }
  }

  lemma KeptMore(events: seq<Event>, stream: seq<byte>, capacity: nat)
    ensures Kept(events + [Callback(stream)], capacity) == Last(Kept(events, capacity) + Stored(stream, capacity), capacity)
  {
    assert (events + [Callback(stream)])[..|events|] == events;
  }
}
