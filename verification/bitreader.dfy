/** `get_bits` and `prep_huffman`, on values. */
module BitReader {
  import opened Bits

  // A reader holds `valid` bits in `acc`, the next bit lowest, and has the bytes `rest` of the
  // packet still to fetch.  A `valid` of `INVALID` records that a read ran past the packet.

  const INVALID: int := -1

  datatype Reader = Reader(acc: nat, valid: int, rest: seq<byte>)

  ghost predicate Sound(s: Reader) {
    s.valid == INVALID || (0 <= s.valid <= 32 && (s.valid > 0 ==> s.acc < Pow2(s.valid)))
  }

  /** The bits of the packet that have not been read yet. */
  ghost function Pending(s: Reader): (bs: seq<bool>)
    ensures |bs| == (if s.valid > 0 then s.valid else 0) + 8 * |s.rest|
  {
    (if s.valid > 0 then ToBits(s.acc, s.valid) else []) + BytesBits(s.rest)
  }

  // ---------------------------------------------------------------- get_bits

  /** Forget the stale accumulator. */
  function Cleared(s: Reader): Reader {
    if s.valid == 0 then s.(acc := 0) else s
  }

  /** Move one byte of the packet into the accumulator. */
  function Take(s: Reader): Reader
    requires s.valid >= 0 && s.rest != []
  {
    Reader(s.acc + Shl(s.rest[0], s.valid), s.valid + 8, s.rest[1..])
  }

  function Fill(s: Reader, n: nat): (r: Reader)
    requires s.valid >= 0
    decreases |s.rest|
  {
    if s.valid >= n then s
    else if s.rest == [] then s.(valid := INVALID)
    else Fill(Take(s), n)
  }

  /** Split the lowest `n` bits off the accumulator. */
  function Drop(s: Reader, n: nat): Reader
    requires n <= s.valid
  {
    Reader(Shr(s.acc, n), s.valid - n, s.rest)
  }

  /** `get_bits` on values. */
  function GetBits(s: Reader, n: nat): (r: (nat, Reader))
    requires s.valid >= INVALID && n <= 32
    ensures r.1.valid >= INVALID
    decreases n
  {
    if s.valid < 0 then (0, s)
    else if s.valid < n then
      if n > 24 then
        var (lo, s1) := GetBits(s, 24);
        var (hi, s2) := GetBits(s1, n - 24);
        (lo + Shl(hi, 24), s2)
      else
        FillEnough(Cleared(s), n);
        var s1 := Fill(Cleared(s), n);
        if s1.valid < 0 then (0, s1) else (Low(s1.acc, n), Drop(s1, n))
    else (Low(s.acc, n), Drop(s, n))
  }

  lemma {:induction false} FillEnough(s: Reader, n: nat)
    requires s.valid >= 0
    ensures Fill(s, n).valid == INVALID || Fill(s, n).valid >= n
    decreases |s.rest|
  {
    if s.valid < n && s.rest != [] { FillEnough(Take(s), n); }
  }

  // ---------------------------------------------------------------- filling loses no bit

  lemma ClearedSame(s: Reader)
    requires Sound(s) && s.valid >= 0
    ensures Pending(Cleared(s)) == Pending(s)
    ensures s.valid == 0 ==> Cleared(s).acc < Pow2(0)
    ensures Cleared(s).acc < Pow2(s.valid)
  {}

  lemma TakeSame(s: Reader)
    requires 0 <= s.valid <= 24 && s.acc < Pow2(s.valid) && s.rest != []
    ensures Pending(Take(s)) == Pending(s)
    ensures Take(s).acc < Pow2(Take(s).valid)
  {
    hide ToBits, BytesBits, Shl;
    var v, b := s.valid, s.rest[0];
    assert b < Pow2(8) by { Pow2Values(); }
    ToBitsJoin(s.acc, b, v, 8);
    NoBits(s.acc);
    BytesFirst(s.rest);
    JoinBound(s.acc, b, v);
    assert ToBits(s.acc, v) + (ToBits(b, 8) + BytesBits(s.rest[1..])) == (ToBits(s.acc, v) + ToBits(b, 8)) + BytesBits(s.rest[1..]);
  }

  lemma NoBits(v: nat)
    ensures ToBits(v, 0) == []
  {}

  lemma BytesFirst(bytes: seq<byte>)
    requires bytes != []
    ensures BytesBits(bytes) == ToBits(bytes[0], 8) + BytesBits(bytes[1..])
  {}

  lemma JoinBound(lo: nat, b: nat, v: nat)
    requires lo < Pow2(v) && b < Pow2(8)
    ensures lo + Shl(b, v) < Pow2(v + 8)
  {
    hide Shl;
    ShlMono(b + 1, Pow2(8), v);
    ShlAdd(b, 1, v);
    Pow2Add(8, v);
  }

  /** Filling up to `n` bits keeps the pending bits and fails only at the end of the packet. */
  lemma {:induction false} FillSame(s: Reader, n: nat)
    requires 0 <= s.valid && s.acc < Pow2(s.valid) && n <= 24
    ensures var r := Fill(s, n);
            if |Pending(s)| >= n then
              Pending(r) == Pending(s) && n <= r.valid && r.acc < Pow2(r.valid) && (s.valid < n ==> r.valid <= n + 7)
            else r.valid == INVALID
    decreases |s.rest|
  {
    hide Pending, Pow2;
    if s.valid < n && s.rest != [] {
      TakeSame(s);
      FillSame(Take(s), n);
    }
    PendingSize(s);
  }

  lemma PendingSize(s: Reader)
    ensures |Pending(s)| == (if s.valid > 0 then s.valid else 0) + 8 * |s.rest|
  {}

  /** Dropping `n` buffered bits reads them as a number and leaves the rest. */
  lemma DropReads(s: Reader, n: nat)
    requires Sound(s) && n <= s.valid && s.acc < Pow2(s.valid)
    ensures Low(s.acc, n) == FromBits(Pending(s)[..n])
    ensures Pending(Drop(s, n)) == Pending(s)[n..]
    ensures Sound(Drop(s, n)) && Drop(s, n).acc < Pow2(Drop(s, n).valid)
  {
    hide ToBits, BytesBits, Shl, Low, Shr;
    var bs := ToBits(s.acc, s.valid);
    NoBits(s.acc);
    ToBitsTakeDrop(s.acc, s.valid, n);
    FromToBits(s.acc, n);
    assert Pending(s) == bs + BytesBits(s.rest);
    assert Pending(s)[..n] == bs[..n];
    assert Pending(s)[n..] == bs[n..] + BytesBits(s.rest);
    NoBits(Shr(s.acc, n));
    ShrBound(s.acc, n, s.valid - n);
  }

  // ---------------------------------------------------------------- what get_bits returns

  /** A read of up to 24 bits: the next field of the packet, or 0 and `INVALID` at its end. */
  lemma GetShort(s: Reader, n: nat)
    requires Sound(s) && s.valid >= 0 && n <= 24
    ensures var (v, s') := GetBits(s, n);
            Sound(s') &&
            (if |Pending(s)| >= n then
               v == FromBits(Pending(s)[..n]) && Pending(s') == Pending(s)[n..] && s'.valid >= 0
             else v == 0 && s'.valid == INVALID)
    ensures s.valid <= 7 ==> GetBits(s, n).1.valid <= 7
  {
    hide Pending, Low, Shr, Fill, FromBits;
    PendingSize(s);
    if n <= s.valid {
      if s.valid == 0 { NothingRead(s); } else { DropReads(s, n); }
    } else {
      ClearedSame(s);
      FillSame(Cleared(s), n);
      FillEnough(Cleared(s), n);
      var r := Fill(Cleared(s), n);
      if r.valid >= 0 { DropReads(r, n); }
    }
  }

  lemma NothingRead(s: Reader)
    requires s.valid == 0
    ensures Low(s.acc, 0) == FromBits(Pending(s)[..0]) && Pending(Drop(s, 0)) == Pending(s)[0..]
  {}

  /** Joining a 24-bit field and the field after it gives the longer field. */
  lemma FieldsJoin(bs: seq<bool>, n: nat)
    requires 24 < n <= |bs|
    ensures FromBits(bs[..24]) + Shl(FromBits(bs[24..][..n - 24]), 24) == FromBits(bs[..n])
    ensures bs[24..][n - 24..] == bs[n..]
  {
    var a, b := bs[..24], bs[24..][..n - 24];
    assert bs[..n] == a + b;
    FromBitsJoin(a, b);
  }

  lemma {:induction false} FromBitsJoin(a: seq<bool>, b: seq<bool>)
    ensures FromBits(a + b) == FromBits(a) + Shl(FromBits(b), |a|)
  {
    if a == [] {
      assert a + b == b;
    } else {
      FromBitsJoin(a[1..], b);
      assert (a + b)[1..] == a[1..] + b;
    }
  }

  /** Every read of up to 32 bits returns the next field of the packet while the packet lasts;
      the split of reads above 24 bits does not show. */
  lemma GetBitsReadsField(s: Reader, n: nat)
    requires Sound(s) && s.valid >= 0 && n <= 32 && (n == 32 ==> s.valid < 32)
    requires n <= |Pending(s)|
    ensures var (v, s') := GetBits(s, n);
            v == FromBits(Pending(s)[..n]) && Pending(s') == Pending(s)[n..] && Sound(s') && s'.valid >= 0
    ensures s.valid <= 7 ==> GetBits(s, n).1.valid <= 7
  {
    hide Pending, Low, Shr, Fill, FromBits, Sound, Cleared;
    if n <= 24 {
      GetShort(s, n);
    } else if n <= s.valid {
      SoundBound(s);
      DropReads(s, n);
    } else {
      GetLong(s, n);
    }
  }

  lemma SoundBound(s: Reader)
    requires Sound(s) && s.valid > 0
    ensures s.acc < Pow2(s.valid)
  {}

  /** A read of more bits than are buffered, split at 24. */
  lemma GetLong(s: Reader, n: nat)
    requires Sound(s) && 0 <= s.valid < n && 24 < n <= 32
    ensures var (v, s') := GetBits(s, n);
            Sound(s') &&
            (if |Pending(s)| >= n then
               v == FromBits(Pending(s)[..n]) && Pending(s') == Pending(s)[n..] && s'.valid >= 0
             else if |Pending(s)| >= 24 then v == FromBits(Pending(s)[..24]) && s'.valid == INVALID
             else v == 0 && s'.valid == INVALID)
    ensures s.valid <= 7 ==> GetBits(s, n).1.valid <= 7
  {
    hide Pending, Low, Shr, Fill, FromBits, Sound, Drop, Cleared;
    var (lo, s1) := GetBits(s, 24);
    var (hi, s2) := GetBits(s1, n - 24);
    assert GetBits(s, n) == (lo + Shl(hi, 24), s2);
    GetShort(s, 24);
    ShlOfZero();
    if s1.valid >= 0 {
      GetShort(s1, n - 24);
      if |Pending(s)| >= n { FieldsJoin(Pending(s), n); }
    }
  }

  lemma ShlOfZero()
    ensures Shl(0, 24) == 0
  {}

  // ---------------------------------------------------------------- sequences of reads

  /** The results of a sequence of reads. */
  function ReadAll(s: Reader, sizes: seq<nat>): (seq<nat>, Reader)
    requires s.valid >= INVALID && forall i :: 0 <= i < |sizes| ==> sizes[i] <= 32
    decreases |sizes|
  {
    if sizes == [] then ([], s)
    else
      var (v, s1) := GetBits(s, sizes[0]);
      var (vs, s2) := ReadAll(s1, sizes[1..]);
      ([v] + vs, s2)
  }

  /** The successive fields of a bit string. */
  ghost function Fields(bs: seq<bool>, sizes: seq<nat>): seq<nat>
    requires Total(sizes) <= |bs|
  {
    if sizes == [] then [] else [FromBits(bs[..sizes[0]])] + Fields(bs[sizes[0]..], sizes[1..])
  }

  function Total(sizes: seq<nat>): nat {
    if sizes == [] then 0 else sizes[0] + Total(sizes[1..])
  }

  /** Over any sequence of reads that the packet can satisfy, the results are its successive fields. */
  lemma {:induction false} ReadsAreFields(s: Reader, sizes: seq<nat>)
    requires Sound(s) && 0 <= s.valid <= 7
    requires forall i :: 0 <= i < |sizes| ==> sizes[i] <= 32
    requires Total(sizes) <= |Pending(s)|
    ensures var (vs, s') := ReadAll(s, sizes);
            vs == Fields(Pending(s), sizes) && Pending(s') == Pending(s)[Total(sizes)..] &&
            Sound(s') && 0 <= s'.valid <= 7
    decreases |sizes|
  {
    hide GetBits, Pending, FromBits, Sound;
    if sizes != [] {
      GetBitsReadsField(s, sizes[0]);
      var (v, s1) := GetBits(s, sizes[0]);
      ReadsAreFields(s1, sizes[1..]);
      assert Pending(s)[sizes[0]..][Total(sizes[1..])..] == Pending(s)[Total(sizes)..];
    }
  }

  /** Once a read has run past the packet, every later read returns 0. */
  lemma {:induction false} PastTheEnd(s: Reader, sizes: seq<nat>)
    requires s.valid == INVALID && forall i :: 0 <= i < |sizes| ==> sizes[i] <= 32
    ensures ReadAll(s, sizes) == (Zeros(|sizes|), s)
    decreases |sizes|
  {
    if sizes != [] { PastTheEnd(s, sizes[1..]); }
  }

  function Zeros(n: nat): (z: seq<nat>)
    ensures |z| == n && forall i :: 0 <= i < n ==> z[i] == 0
  {
    if n == 0 then [] else [0] + Zeros(n - 1)
  }

  /** The read that meets the end: 0 for up to 24 bits; a longer one may return its first 24 bits. */
  lemma ReadMeetsEnd(s: Reader, n: nat)
    requires Sound(s) && 0 <= s.valid < n <= 32 && |Pending(s)| < n
    ensures GetBits(s, n).1.valid == INVALID
    ensures GetBits(s, n).0 == if n > 24 && |Pending(s)| >= 24 then FromBits(Pending(s)[..24]) else 0
  {
    if n <= 24 { GetShort(s, n); } else { GetLong(s, n); }
  }
}
