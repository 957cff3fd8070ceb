/** Packets as they are: fields and codewords of any codebooks, in any order. */
module DecodeFields {
  import opened BitReader
  import opened Bits
  import opened CodebookBuild
  import opened Codewords
  import opened Decode

  /** A finished codebook, with the lengths and the codewords that it was built from. */
  datatype Table = Table(bk: Book, lens: seq<nat>, codes: seq<nat>)

  /** What is asked of the packet: `get_bits` of a size, or `DECODE` with a codebook. */
  datatype Request = Bits(size: nat) | Decode(table: Table)

  /** A request and the value or entry that the packet has for it. */
  datatype Item = Item(request: Request, value: nat)

  ghost predicate TableOk(t: Table) {
    |t.codes| == |t.lens| && Ready(t.bk, t.lens, t.codes)
  }

  ghost predicate ItemOk(it: Item) {
    match it.request
    case Bits(size) => size <= 32 && it.value < Pow2(size)
    case Decode(t) => TableOk(t) && Coded(t.lens, it.value)
  }

  ghost predicate ItemsOk(items: seq<Item>) {
    forall i :: 0 <= i < |items| ==> ItemOk(items[i])
  }

  function Size(it: Item): nat {
    match it.request
    case Bits(size) => size
    case Decode(t) => if it.value < |t.lens| then t.lens[it.value] else 0
  }

  ghost function ItemBits(it: Item): (bs: seq<bool>)
    requires ItemOk(it)
    ensures |bs| == Size(it)
  {
    match it.request
    case Bits(size) => ToBits(it.value, size)
    case Decode(t) => CodeBits(t.lens, t.codes, it.value)
  }

  /** The bits of a packet. */
  ghost function Layout(items: seq<Item>): seq<bool>
    requires ItemsOk(items)
  {
    if items == [] then [] else ItemBits(items[0]) + Layout(items[1..])
  }

  /** What one request returns. */
  ghost function Read(it: Item, s: Reader): (r: (int, Reader))
    requires ItemOk(it) && Live(s)
    ensures Live(r.1)
  {
    match it.request
    case Bits(size) =>
      GetBitsLive(s, size);
      GetBits(s, size)
    case Decode(t) =>
      ReadyUsable(t.bk, t.lens, t.codes);
      DecodeEntry(t.bk, s)
  }

  ghost function ReadItems(items: seq<Item>, s: Reader): seq<int>
    requires ItemsOk(items) && Live(s)
  {
    if items == [] then []
    else
      var (v, s') := Read(items[0], s);
      [v] + ReadItems(items[1..], s')
  }

  ghost function Values(items: seq<Item>): seq<int> {
    if items == [] then [] else [items[0].value as int] + Values(items[1..])
  }

  /** A field can stand anywhere; a codeword of a reached entry must end within four bytes. */
  ghost predicate Fitting(it: Item, p: nat)
    requires ItemOk(it)
  {
    it.request.Decode? ==>
      var t := it.request.table;
      Reached(t.bk, t.lens, it.value) && p % 8 + t.lens[it.value] <= 32
  }

  ghost predicate AllFitting(items: seq<Item>, p: nat)
    requires ItemsOk(items)
  {
    items == [] || (Fitting(items[0], p) && AllFitting(items[1..], p + Size(items[0])))
  }

  // ---------------------------------------------------------------- get_bits between codewords

  lemma {:induction false} FillLive(s: Reader, n: nat)
    requires s.valid >= 0
    ensures Live(Fill(s, n))
    decreases |s.rest|
  {
    if s.valid < n && s.rest != [] { FillLive(Take(s), n); }
  }

  lemma {:induction false} GetBitsLive(s: Reader, n: nat)
    requires Live(s) && n <= 32
    ensures Live(GetBits(s, n).1)
    decreases n
  {
    hide Fill, Low, Shr, Shl;
    if 0 <= s.valid < n {
      if n > 24 {
        GetBitsLive(s, 24);
        GetBitsLive(GetBits(s, 24).1, n - 24);
      } else {
        FillLive(Cleared(s), n);
        FillEnough(Cleared(s), n);
      }
    }
  }

  /** A read never leaves 32 bits behind, so that the next one never shifts by the width of the word. */
  lemma {:induction false} ReadRoom(s: Reader, n: nat)
    requires Sound(s) && 0 <= s.valid < 32 && n <= 32 && n <= |Pending(s)|
    ensures GetBits(s, n).1.valid < 32
    decreases n
  {
    hide Pending, Fill, Low, Shr, Shl, Sound, Cleared;
    if s.valid < n {
      if n > 24 {
        GetBitsReadsField(s, 24);
        ReadRoom(s, 24);
        ReadRoom(GetBits(s, 24).1, n - 24);
      } else {
        ClearedSame(s);
        ClearedValid(s);
        FillSame(Cleared(s), n);
        FillEnough(Cleared(s), n);
      }
    }
  }

  lemma ClearedValid(s: Reader)
    ensures Cleared(s).valid == s.valid
  {}

  /** A read of `n` bits at bit `p`. */
  lemma FieldReads(s: Reader, n: nat, value: nat, p: nat)
    requires Decode.At(s, p) && s.valid < 32 && n <= 32 && value < Pow2(n) && ToBits(value, n) <= Pending(s)
    ensures GetBits(s, n).0 == value && Advanced(s, n, GetBits(s, n).1)
  {
    hide Pending, GetBits, FromBits, ToBits, Sound, Pow2;
    GetBitsReadsField(s, n);
    ReadRoom(s, n);
    var s' := GetBits(s, n).1;
    assert Pending(s)[..n] == ToBits(value, n);
    FromToBits(value, n);
    LowSmall(value, n);
    PendingSize(s);
    PendingSize(s');
    SameBits(s.valid, |s.rest|, s'.valid, |s'.rest|, n);
  }

  /** Bytes leave the packet whole. */
  lemma SameBits(valid: int, bytes: int, valid': int, bytes': int, n: int)
    requires valid' + 8 * bytes' == valid + 8 * bytes - n
    ensures (valid' + n - valid) % 8 == 0
  {
    assert valid' + n - valid == 8 * (bytes - bytes');
  }

  // ---------------------------------------------------------------- whole packets

  /** One request: its value is returned exactly if it fits, and then exactly its bits are consumed. */
  lemma ItemReads(it: Item, s: Reader, p: nat)
    requires ItemOk(it) && Decode.At(s, p) && s.valid < 32 && ItemBits(it) <= Pending(s)
    ensures Read(it, s).0 == it.value <==> Fitting(it, p)
    ensures Fitting(it, p) ==> Advanced(s, Size(it), Read(it, s).1)
  {
    hide Pending, GetBits, DecodeEntry, CodeBits, ToBits, Ready, Reached, Advanced, Sound, Usable, Pow2;
    match it.request
    case Bits(size) => FieldReads(s, size, it.value, p);
    case Decode(t) =>
      ReadyUsable(t.bk, t.lens, t.codes);
      EntryDecodes(t.bk, t.lens, t.codes, it.value, s, p);
  }

  lemma Unfold(items: seq<Item>, s: Reader, p: nat)
    requires ItemsOk(items) && Live(s) && items != []
    ensures ItemOk(items[0]) && ItemsOk(items[1..])
    ensures Layout(items) == ItemBits(items[0]) + Layout(items[1..])
    ensures ReadItems(items, s) == [Read(items[0], s).0] + ReadItems(items[1..], Read(items[0], s).1)
    ensures Values(items) == [items[0].value as int] + Values(items[1..])
    ensures AllFitting(items, p) <==> Fitting(items[0], p) && AllFitting(items[1..], p + Size(items[0]))
  {
    hide ItemOk, ItemBits, Read, Fitting, Size;
  }

  lemma NoItems(s: Reader, p: nat)
    requires Live(s)
    ensures ItemsOk([]) && ReadItems([], s) == Values([]) == [] && AllFitting([], p)
  {
    hide ItemOk;
  }

  lemma SameFirst(a: int, x: seq<int>, b: int, y: seq<int>)
    ensures [a] + x == [b] + y <==> a == b && x == y
  {
    if [a] + x == [b] + y { assert ([a] + x)[0] == ([b] + y)[0] && ([a] + x)[1..] == x && ([b] + y)[1..] == y; }
  }

  /** A packet of fields and codewords is read back exactly when each codeword is reached and fits four bytes from
      where it starts. */
  lemma {:induction false} PacketReads(items: seq<Item>, s: Reader, p: nat)
    requires ItemsOk(items) && Decode.At(s, p) && s.valid < 32 && Layout(items) <= Pending(s)
    ensures ReadItems(items, s) == Values(items) <==> AllFitting(items, p)
    decreases |items|
  {
    hide ItemsOk, ItemOk, ItemBits, Read, Fitting, Size, Layout, ReadItems, Values, AllFitting, Pending, Decode.At, Advanced;
    AtLive(s, p);
    if items == [] {
      NoItems(s, p);
    } else {
      Unfold(items, s, p);
      PrefixParts(ItemBits(items[0]), Layout(items[1..]), Pending(s));
      ItemReads(items[0], s, p);
      var (v, s') := Read(items[0], s);
      SameFirst(v, ReadItems(items[1..], s'), items[0].value, Values(items[1..]));
      if Fitting(items[0], p) {
        AdvancedAt(s, Size(items[0]), s', p);
        PacketReads(items[1..], s', p + Size(items[0]));
      }
    }
  }
}
