/** Values, identities and collections of the migration.

    A collection is the order in which its records are listed and the fields of each record.  New
    ids are counted; all that matters of them is that they are new and not empty.
 */
module MigrationStore {
  import opened Arithmetic
  import opened Sequences
  import opened Wrappers

  /** A cell or field; a missing one reads as null. */
  datatype Value = Null | Text(text: string)

  type Fields = map<string, Value>
  type Id = string

  function FieldOf(rec: Fields, name: string): Value {
    if name in rec then rec[name] else Null
  }

  const OLD_ID := "old_id"

  // ---------------------------------------------------------------- normalizing

  /** What `trim` removes. */
  predicate IsSpace(c: char) {
    '\t' <= c <= '\r' || c == ' ' || c as int == 0xA0 || c as int == 0xFEFF || c as int == 0x1680 ||
    0x2000 <= c as int <= 0x200A || c as int == 0x2028 || c as int == 0x2029 || c as int == 0x202F ||
    c as int == 0x205F || c as int == 0x3000
  }

  function Trim(s: string): (t: string)
    ensures t != [] ==> !IsSpace(t[0]) && !IsSpace(t[|t| - 1])
    decreases |s|
  {
    if s == [] then []
    else if IsSpace(s[0]) then Trim(s[1..])
    else if IsSpace(s[|s| - 1]) then Trim(s[..|s| - 1])
    else s
  }

  function LowerChar(c: char): (d: char)
    ensures IsSpace(d) == IsSpace(c)
  {
    if 'A' <= c <= 'Z' then c + ' ' else c
  }

  function Lower(s: string): (t: string)
    ensures |t| == |s| && forall i :: 0 <= i < |t| ==> t[i] == LowerChar(s[i])
  {
    seq(|s|, i requires 0 <= i < |s| => LowerChar(s[i]))
  }

  /** `normalizeOldId` */
  function NormalizeOldId(value: Value): (r: Option<string>)
    ensures r.Some? ==> r.value != []
  {
    match value
    case Null => None
    case Text(text) =>
      var n := Lower(Trim(text));
      if n == [] then None else Some(n)
  }

  /** Nothing is trimmed where neither end is a space. */
  lemma TrimNothing(s: string)
    requires s != [] && !IsSpace(s[0]) && !IsSpace(s[|s| - 1])
    ensures Trim(s) == s
  {
    hide IsSpace;
  }

  lemma LowerTwice(s: string)
    ensures Lower(Lower(s)) == Lower(s)
  {
    hide IsSpace;
  }

  /** Normalizing a normalized id changes nothing. */
  lemma NormalizeTwice(value: Value)
    requires NormalizeOldId(value).Some?
    ensures NormalizeOldId(Text(NormalizeOldId(value).value)) == NormalizeOldId(value)
  {
    hide IsSpace, Lower, Trim;
    TrimNothing(Lower(Trim(value.text)));
    LowerTwice(Trim(value.text));
  }

  // ---------------------------------------------------------------- collections

  /** A collection: its records, and the order in which they are listed. */
  datatype Store = Store(order: seq<Id>, records: map<Id, Fields>)

  /** Ids are unique and not empty; a new one is longer than all before it. */
  ghost predicate StoreOk(s: Store, minted: nat) {
    Distinct(s.order) && Elements(s.order) == s.records.Keys &&
    forall id :: id in s.records ==> 0 < |id| <= minted
  }

  function NewId(minted: nat): (id: Id)
    ensures |id| == minted + 1
  {
    seq(minted + 1, _ => 'r')
  }

  function KeyOf(rec: Fields): (r: Option<string>)
    ensures r.Some? ==> r.value != []
  {
    NormalizeOldId(FieldOf(rec, OLD_ID))
  }

  type KeyIds = map<string, Id>

  /** The ids of the old ids of the first `n` listed records; a later record replaces an earlier one. */
  function KeyMap(s: Store, n: nat): (m: KeyIds)
    requires n <= |s.order|
  {
    if n == 0 then map[]
    else
      var m, id := KeyMap(s, n - 1), s.order[n - 1];
      if id in s.records && KeyOf(s.records[id]).Some? then m[KeyOf(s.records[id]).value := id] else m
  }

  function AllKeys(s: Store): KeyIds { KeyMap(s, |s.order|) }

  /** No two records share a key. */
  ghost predicate UniqueKeys(s: Store) {
    forall a, b :: a in s.records && b in s.records && KeyOf(s.records[a]).Some? && KeyOf(s.records[a]) == KeyOf(s.records[b]) ==> a == b
  }

  /** `m` finds the record of every key, and each key has one record. */
  ghost predicate Keyed(s: Store, m: KeyIds) {
    (forall k :: k in m ==> m[k] in s.records && KeyOf(s.records[m[k]]) == Some(k)) &&
    forall id :: id in s.records && KeyOf(s.records[id]).Some? ==> KeyOf(s.records[id]).value in m && m[KeyOf(s.records[id]).value] == id
  }

  lemma {:induction false} KeyMapFinds(s: Store, n: nat)
    requires n <= |s.order| && Elements(s.order) == s.records.Keys && UniqueKeys(s)
    ensures forall k :: k in KeyMap(s, n) ==> KeyMap(s, n)[k] in s.records && KeyOf(s.records[KeyMap(s, n)[k]]) == Some(k)
    ensures forall i :: 0 <= i < n && KeyOf(s.records[s.order[i]]).Some? ==>
              KeyOf(s.records[s.order[i]]).value in KeyMap(s, n) && KeyMap(s, n)[KeyOf(s.records[s.order[i]]).value] == s.order[i]
  {
    hide KeyOf;
    if n > 0 {
      KeyMapFinds(s, n - 1);
      assert s.order[n - 1] in Elements(s.order);
    }
  }

  /** With unique keys the map finds exactly the records. */
  lemma AllKeysKeyed(s: Store, minted: nat)
    requires StoreOk(s, minted) && UniqueKeys(s)
    ensures Keyed(s, AllKeys(s))
  {
    hide KeyOf, KeyMap, Distinct;
    KeyMapFinds(s, |s.order|);
    forall id | id in s.records && KeyOf(s.records[id]).Some?
      ensures KeyOf(s.records[id]).value in AllKeys(s) && AllKeys(s)[KeyOf(s.records[id]).value] == id
    {
      assert id in Elements(s.order);
    }
  }

  lemma KeyedIsUnique(s: Store, m: KeyIds)
    requires Keyed(s, m)
    ensures UniqueKeys(s)
  {
    hide KeyOf;
  }

  /** There is only one such map. */
  lemma KeyedIsAllKeys(s: Store, minted: nat, m: KeyIds)
    requires StoreOk(s, minted) && Keyed(s, m)
    ensures m == AllKeys(s)
  {
    hide KeyOf, AllKeys, StoreOk;
    KeyedIsUnique(s, m);
    AllKeysKeyed(s, minted);
  }

  /** The map depends on the listing and the keys only. */
  lemma {:induction false} SameKeyMap(s: Store, t: Store, n: nat)
    requires s.order == t.order && n <= |s.order| && s.records.Keys == t.records.Keys
    requires forall id :: id in s.records ==> KeyOf(s.records[id]) == KeyOf(t.records[id])
    ensures KeyMap(s, n) == KeyMap(t, n)
  {
    hide KeyOf;
    if n > 0 { SameKeyMap(s, t, n - 1); }
  }

  // ---------------------------------------------------------------- pages

  /** The position of the first record of a page. */
  function PageStart(page: nat, size: nat): nat
    requires page > 0
  {
    (page - 1) * size
  }

  function TotalPages(n: nat, size: nat): nat
    requires size > 0
  {
    (n + size - 1) / size
  }

  lemma FirstPage(size: nat)
    ensures PageStart(1, size) == 0
  {}

  lemma NextPage(page: nat, size: nat)
    requires page > 0
    ensures PageStart(page + 1, size) == PageStart(page, size) + size
  {}

  /** The last page reaches the end. */
  lemma LastPage(page: nat, size: nat, n: nat)
    requires page > 0 && size > 0
    ensures page >= TotalPages(n, size) <==> PageStart(page, size) + size >= n
  {
    var q, r := (n + size - 1) / size, (n + size - 1) % size;
    assert n + size - 1 == q * size + r;
    assert PageStart(page, size) + size == page * size;
    if page >= q {
      MulMono(q, page, size);
    } else {
      MulMono(page + 1, q, size);
    }
  }
}
