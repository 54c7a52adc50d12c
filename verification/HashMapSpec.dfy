/** The records of the hash map of src/touchdb_map.c, and what it means for linked records to be a map. */
module HashMapSpec {
  import opened Bits
  import opened CStrings
  import opened Values
  import opened Sequences

  datatype Entry = Entry(prev: Addr, next: Addr, hash: int, key: Addr, val: Val)

  // A bucket: the ends of its chain of entries, and the chain's length.
  datatype Bulk = Bulk(header: Addr, tail: Addr, size: nat)

  // What an allocated block holds: the bucket array, an entry, a key, a string record with the address of
  // its characters, those characters, or a temporary value record.
  datatype Cell =
    | Table(bulks: seq<Bulk>)
    | EntryCell(entry: Entry)
    | Key(chars: CStr)
    | Str(len: nat, data: Addr)
    | Text(text: CStr)
    | Temp(val: Val)

  type Heap = map<Addr, Cell>

  // The size of a block's record in bytes; characters and keys end in a zero byte.
  function Bytes(c: Cell): nat {
    match c
    case Table(bulks) => 20 * |bulks|
    case EntryCell(_) => 40
    case Key(chars) => |chars| + 1
    case Str(_, _) => 12
    case Text(text) => |text| + 1
    case Temp(_) => 12
  }

  // ----- hashing

  // The value of a char on a machine where char is signed.
  function SignedChar(b: Byte): (c: int)
    ensures -128 <= c < 128 && (c - b) % 256 == 0
  {
    if b < 128 then b else b - 256
  }

  // hash_code, with overflow wrapping around.
  function HashCode(s: CStr): int {
    if s == [] then 0 else ToInt32(31 * HashCode(s[..|s| - 1]) + SignedChar(s[|s| - 1]))
  }

  function Hash(h: int): int {
    var m := Xor(h, Xor(Shr(h, 20), Shr(h, 12)));
    Xor(Xor(m, Shr(m, 7)), Shr(m, 4))
  }

  // Each character counts 31 to the power of its distance from the end, wrapping around only once.
  lemma {:induction false} HashCodeIs(s: CStr)
    ensures HashCode(s) == ToInt32(Weighed(s, |s|))
  {
    if s != [] {
      var n := |s| - 1;
      HashCodeIs(s[..n]);
      WeighedPrefix(s, n, n);
      WeighedMore(s, n);
      WrapsOnce(31, Weighed(s[..n], n), SignedChar(s[n]));
    }
  }

  // 31 * 97 + 98, and a character past 127.
  lemma HashCodeExample()
    ensures HashCode([97, 98]) == 3105 && HashCode([200]) == -56
  {
    assert [97, 98][..1] == [97] && [97][..0] == [] && [200][..0] == [];
    assert HashCode([]) == 0 && HashCode([97]) == 97;
  }

  function Power(b: nat, e: nat): nat {
    if e == 0 then 1 else b * Power(b, e - 1)
  }

  // The sum over the places i of the first n characters of their value times 31 to the power of n - 1 - i.
  function Weighed(s: CStr, n: nat): int
    requires n <= |s|
  {
    WeighedFrom(s, n, 0)
  }

  function WeighedFrom(s: CStr, n: nat, i: nat): int
    requires i <= n <= |s|
    decreases n - i
  {
    if i == n then 0 else SignedChar(s[i]) * Power(31, n - 1 - i) + WeighedFrom(s, n, i + 1)
  }

  lemma {:induction false} WeighedFromPrefix(s: CStr, k: nat, n: nat, i: nat)
    requires i <= n <= k <= |s|
    ensures WeighedFrom(s[..k], n, i) == WeighedFrom(s, n, i)
    decreases n - i
  {
    if i < n { WeighedFromPrefix(s, k, n, i + 1); }
  }

  lemma WeighedPrefix(s: CStr, k: nat, n: nat)
    requires n <= k <= |s|
    ensures Weighed(s[..k], n) == Weighed(s, n)
  {
    WeighedFromPrefix(s, k, n, 0);
  }

  lemma {:induction false} WeighedFromMore(s: CStr, n: nat, i: nat)
    requires i <= n < |s|
    ensures WeighedFrom(s, n + 1, i) == 31 * WeighedFrom(s, n, i) + SignedChar(s[n])
    decreases n - i
  {
    if i < n {
      WeighedFromMore(s, n, i + 1);
      var c, p := SignedChar(s[i]), Power(31, n - 1 - i);
      assert Power(31, n - i) == 31 * p;
      assert c * (31 * p) == 31 * (c * p);
    } else {
      assert Power(31, 0) == 1;
    }
  }

  lemma WeighedMore(s: CStr, n: nat)
    requires n < |s|
    ensures Weighed(s, n + 1) == 31 * Weighed(s, n) + SignedChar(s[n])
  {
    WeighedFromMore(s, n, 0);
  }

  // Bit i of the hash is the sum modulo 2 of nine bits of h.
  lemma HashBits(h: int, i: nat)
    ensures Bit(Hash(h), i) ==
      (Bit(h, i) + Bit(h, i + 4) + Bit(h, i + 7) + Bit(h, i + 12) + Bit(h, i + 16) + Bit(h, i + 19) + Bit(h, i + 20)
       + Bit(h, i + 24) + Bit(h, i + 27)) % 2
  {
    hide Xor, Shr, Bit;
    var m := Xor(h, Xor(Shr(h, 20), Shr(h, 12)));
    XorBits(Xor(m, Shr(m, 7)), Shr(m, 4), i);
    XorBits(m, Shr(m, 7), i);
    ShrBits(m, 4, i);
    ShrBits(m, 7, i);
    FirstRoundBits(h, i);
    FirstRoundBits(h, 4 + i);
    FirstRoundBits(h, 7 + i);
    Parity(Bit(h, i) + Bit(h, i + 12) + Bit(h, i + 20), Bit(h, i + 7) + Bit(h, i + 19) + Bit(h, i + 27),
           Bit(h, i + 4) + Bit(h, i + 16) + Bit(h, i + 24));
  }

  lemma Parity(a: int, b: int, c: int)
    ensures ((a % 2 + b % 2) % 2 + c % 2) % 2 == (a + b + c) % 2
  {
  }

  lemma FirstRoundBits(h: int, i: nat)
    ensures Bit(Xor(h, Xor(Shr(h, 20), Shr(h, 12))), i) == (Bit(h, i) + Bit(h, i + 12) + Bit(h, i + 20)) % 2
  {
    hide Xor, Shr, Bit;
    XorBits(h, Xor(Shr(h, 20), Shr(h, 12)), i);
    XorBits(Shr(h, 20), Shr(h, 12), i);
    ShrBits(h, 20, i);
    ShrBits(h, 12, i);
  }

  // The hash of an int is an int.
  lemma HashInRange(h: int)
    requires IsInt32(h)
    ensures IsInt32(Hash(h))
  {
    hide Xor;
    assert Pow2(10) == 1024;
    assert Pow2(20) == 1024 * 1024;
    assert Pow2(31) == 0x8000_0000;
    ShrRange(h, 20, 31);
    ShrRange(h, 12, 31);
    XorRange(Shr(h, 20), Shr(h, 12), 31);
    XorRange(h, Xor(Shr(h, 20), Shr(h, 12)), 31);
    var m := Xor(h, Xor(Shr(h, 20), Shr(h, 12)));
    ShrRange(m, 7, 31);
    ShrRange(m, 4, 31);
    XorRange(m, Shr(m, 7), 31);
    XorRange(Xor(m, Shr(m, 7)), Shr(m, 4), 31);
  }

  function HashOf(k: CStr): int {
    Hash(HashCode(k))
  }

  // index_for
  function IndexFor(count: nat, h: int): nat {
    if count == 0 then 0 else And(h, count - 1)
  }

  function Bucket(count: nat, k: CStr): nat {
    IndexFor(count, HashOf(k))
  }

  // With a power of two as the number of buckets, the index is the remainder of the hash, negative or not.
  lemma IndexForIsRemainder(e: nat, h: int)
    ensures Pow2(e) >= 1
    ensures IndexFor(Pow2(e), h) == h % Pow2(e) < Pow2(e)
  {
    AndMask(h, e);
  }

  // ----- the abstract state of a map and its consistency

  // index: the entry of each key. chains: the entries of each bucket in order. owner: the key that a block
  // belongs to.
  datatype View = View(heap: Heap, table: Addr, size: nat,
                       index: map<CStr, Addr>, chains: seq<seq<Addr>>, owner: map<Addr, CStr>)

  predicate BulkSpells(b: Bulk, q: seq<Addr>) {
    b == if q == [] then Bulk(NULL_ADDR, NULL_ADDR, 0) else Bulk(q[0], q[|q| - 1], |q|)
  }

  predicate LinkSpells(heap: Heap, q: seq<Addr>, j: nat)
    requires j < |q|
  {
    && q[j] in heap && heap[q[j]].EntryCell? && q[j].offset != NIL
    && heap[q[j]].entry.next == (if j + 1 < |q| then q[j + 1] else NULL_ADDR)
    && heap[q[j]].entry.prev == (if j > 0 then q[j - 1] else NULL_ADDR)
  }

  // The bucket array and the entries' links spell the chains, both ways.
  ghost predicate Chained(heap: Heap, table: Addr, chains: seq<seq<Addr>>) {
    && table in heap && heap[table].Table? && |heap[table].bulks| == |chains|
    && (forall i :: 0 <= i < |chains| ==> BulkSpells(heap[table].bulks[i], chains[i]))
    && (forall i, j :: 0 <= i < |chains| && 0 <= j < |chains[i]| ==> LinkSpells(heap, chains[i], j))
  }

  // The entries of all buckets, one bucket after the other.
  function Joined(chains: seq<seq<Addr>>): seq<Addr> {
    if chains == [] then [] else Joined(chains[..|chains| - 1]) + chains[|chains| - 1]
  }

  // Every key has its entry in the bucket of its hash, and every entry in a chain is that of one key.
  ghost predicate Indexed(index: map<CStr, Addr>, chains: seq<seq<Addr>>, owner: map<Addr, CStr>) {
    && (forall k :: k in index ==> Bucket(|chains|, k) < |chains| && index[k] in chains[Bucket(|chains|, k)])
    && (forall i, j :: 0 <= i < |chains| && 0 <= j < |chains[i]| ==>
          ChainedKey(index, owner, chains[i][j], i, |chains|))
    && (forall i :: 0 <= i < |chains| ==> NoDuplicates(chains[i]))
  }

  predicate ChainedKey(index: map<CStr, Addr>, owner: map<Addr, CStr>, e: Addr, i: nat, count: nat) {
    e in owner && owner[e] in index && index[owner[e]] == e && Bucket(count, owner[e]) == i
  }

  // Entry e holds key k with the right hash, and its value's string is in place if it has one.
  predicate EntryFor(heap: Heap, k: CStr, e: Addr) {
    && e in heap && heap[e].EntryCell?
    && var n := heap[e].entry;
    && n.hash == HashOf(k) && n.key in heap && heap[n.key] == Key(k)
    && StringInPlace(heap, n.val)
  }

  predicate StringInPlace(heap: Heap, v: Val) {
    v.kind == StrVal ==>
      v.value in heap && heap[v.value].Str? && heap[v.value].data in heap && heap[heap[v.value].data].Text?
  }

  // The blocks of a value's string.
  function StringBlocks(heap: Heap, v: Val): set<Addr>
    requires StringInPlace(heap, v)
  {
    if v.kind == StrVal then {v.value, heap[v.value].data} else {}
  }

  // All the blocks of key k, whose entry is e.
  function Blocks(heap: Heap, k: CStr, e: Addr): set<Addr>
    requires EntryFor(heap, k, e)
  {
    {e, heap[e].entry.key} + StringBlocks(heap, heap[e].entry.val)
  }

  // Each key's blocks are in place and belong to that key only.
  ghost predicate Stored(heap: Heap, index: map<CStr, Addr>, owner: map<Addr, CStr>) {
    forall k :: k in index ==> EntryFor(heap, k, index[k]) && OwnsBlocks(heap, index, owner, k)
  }

  ghost predicate OwnsBlocks(heap: Heap, index: map<CStr, Addr>, owner: map<Addr, CStr>, k: CStr)
    requires k in index && EntryFor(heap, k, index[k])
  {
    forall b :: b in Blocks(heap, k, index[k]) <==> b in owner && owner[b] == k
  }

  // The heap has the bucket array, the keys' blocks and `pending` blocks, and nothing else.
  ghost predicate Accounted(v: View, pending: set<Addr>) {
    && v.heap.Keys == {v.table} + pending + v.owner.Keys
    && v.table !in v.owner && v.table !in pending && pending !! v.owner.Keys
    && (forall a :: a in v.owner ==> v.owner[a] in v.index)
    && v.size == |v.index|
  }

  ghost predicate Consistent(v: View, pending: set<Addr>) {
    && Chained(v.heap, v.table, v.chains)
    && Indexed(v.index, v.chains, v.owner)
    && Stored(v.heap, v.index, v.owner)
    && Accounted(v, pending)
  }

  // ----- what the map says

  function ContentsOf(heap: Heap, index: map<CStr, Addr>): map<CStr, Val> {
    map k | k in index && index[k] in heap && heap[index[k]].EntryCell? :: heap[index[k]].entry.val
  }

  function Contents(v: View): map<CStr, Val> {
    ContentsOf(v.heap, v.index)
  }

  // The characters of a value's string, none for a value of another kind.
  function TextOf(heap: Heap, v: Val): seq<CStr> {
    if v.kind == StrVal && StringInPlace(heap, v) then [heap[heap[v.value].data].text] else []
  }

  function TextsOf(heap: Heap, index: map<CStr, Addr>): map<CStr, seq<CStr>> {
    map k | k in index && index[k] in heap && heap[index[k]].EntryCell? :: TextOf(heap, heap[index[k]].entry.val)
  }

  function Texts(v: View): map<CStr, seq<CStr>> {
    TextsOf(v.heap, v.index)
  }
}
