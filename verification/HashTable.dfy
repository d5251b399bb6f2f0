/**
 The hash table with two bucket arrays and incremental rehashing.

 `entries` is the map the table stands for. `c0` and `c1` list, bucket by bucket, the chains of the two arrays; the
 invariant ties them to the bucket heads and to the next and previous pointers of the entries, which are viewed as one
 value, a map of links.
 */
module HashTable {

  import Division

  class HashEntry {
    const key: string
    var val: int
    var next: HashEntry?
    var prev: HashEntry?

    constructor (key: string, val: int)
      ensures this.key == key && this.val == val
    {
      this.key, this.val := key, val;
      next, prev := null, null;
    }
  }

  type Hash = string -> nat

  /** The chain of one bucket, from its head on. */
  type Chain = seq<HashEntry>

  type Chains = seq<Chain>

  datatype Link = Link(next: HashEntry?, prev: HashEntry?)

  type Links = map<HashEntry, Link>

  // ---------------------------------------------------------------- arithmetic

  function Pow2(n: nat): (p: nat)
    ensures p >= n + 1
  {
    if n == 0 then 1 else 2 * Pow2(n - 1)
  }

  lemma {:induction false} Pow2Grows(m: nat, n: nat)
    requires m < n
    ensures 2 * Pow2(m) <= Pow2(n)
  {
    if m < n - 1 { Pow2Grows(m, n - 1); }
  }

  /** The low `n` bits of `h`: the hash under the mask of a table of 2^n buckets. */
  function Mask(h: nat, n: nat): (b: nat)
    ensures b < Pow2(n)
  {
    if n == 0 then 0 else 2 * Mask(h / 2, n - 1) + h % 2
  }

  /** A bucket number in a smaller table follows from the one in a larger table. */
  lemma {:induction false} MaskOfMask(h: nat, m: nat, n: nat)
    requires m <= n
    ensures Mask(Mask(h, n), m) == Mask(h, m)
  {
    if m > 0 {
      var x, y := Mask(h, n), Mask(h / 2, n - 1);
      assert x == 2 * y + h % 2 && x / 2 == y && x % 2 == h % 2;
      MaskOfMask(h / 2, m - 1, n - 1);
    }
  }

  lemma RemainderOfTwice(h: nat, p: nat)
    requires p > 0
    ensures h % (2 * p) == 2 * (h / 2 % p) + h % 2
  {
    var q, r := h / 2 / p, h / 2 % p;
    assert h == 2 * (q * p + r) + h % 2;
    assert h == q * (2 * p) + (2 * r + h % 2);
    Division.Unique(h, 2 * p, q, 2 * r + h % 2);
  }

  /** The mask is the remainder by the number of buckets. */
  lemma {:induction false} MaskIsRemainder(h: nat, n: nat)
    ensures Mask(h, n) == h % Pow2(n)
  {
    if n > 0 {
      MaskIsRemainder(h / 2, n - 1);
      RemainderOfTwice(h, Pow2(n - 1));
    }
  }

  /** The bucket of a key in a table of 2^n buckets. */
  function Slot(hash: Hash, key: string, n: nat): (b: nat)
    ensures b < Pow2(n)
  {
    Mask(hash(key), n)
  }

  /** A table of exponent `n` has 2^n buckets, and a key is in the bucket of its hash modulo that number. */
  lemma BucketOfKey(hash: Hash, key: string, n: nat)
    ensures Pow2(0) == 1 && Pow2(n + 1) == Pow2(n) + Pow2(n) && Slot(hash, key, n) == hash(key) % Pow2(n)
  {
    MaskIsRemainder(hash(key), n);
  }

  // ---------------------------------------------------------------- chains

  ghost function At(c: Chain, p: int): HashEntry? {
    if 0 <= p < |c| then c[p] else null
  }

  ghost function LinksOf(es: set<HashEntry>): (links: Links)
    reads es`next, es`prev
    ensures links.Keys == es
    ensures forall e :: e in es ==> links[e] == Link(e.next, e.prev)
  {
    map e | e in es :: Link(e.next, e.prev)
  }

  /** The links lead along `c` from `head`, and back. */
  ghost predicate ChainOk(links: Links, head: HashEntry?, c: Chain) {
    && head == At(c, 0)
    && forall p {:trigger links[c[p]]} {:trigger c[p] in links} ::
         0 <= p < |c| ==> c[p] in links && links[c[p]] == Link(At(c, p + 1), At(c, p - 1))
  }

  /** Every bucket is a chain, leaving out bucket `but`. */
  ghost predicate TableOk(links: Links, heads: seq<HashEntry?>, cs: Chains, but: int) {
    |heads| == |cs| && forall b :: 0 <= b < |cs| && b != but ==> ChainOk(links, heads[b], cs[b])
  }

  ghost function Pushed(links: Links, head: HashEntry?, e: HashEntry): Links
    requires head != null ==> head in links
  {
    var l := links[e := Link(head, null)];
    if head == null then l else l[head := l[head].(prev := e)]
  }

  ghost predicate NoRepeat(c: Chain) {
    forall p, q :: 0 <= p < q < |c| ==> c[p] != c[q]
  }

  lemma PushChain(links: Links, head: HashEntry?, c: Chain, e: HashEntry)
    requires ChainOk(links, head, c) && e !in c && NoRepeat(c)
    ensures (head != null ==> head in links) && ChainOk(Pushed(links, head, e), e, [e] + c)
  {
    assert c != [] ==> c[0] in links && links[c[0]] == Link(At(c, 1), null);
    var l, d := Pushed(links, head, e), [e] + c;
    forall p | 0 <= p < |d| ensures d[p] in l && l[d[p]] == Link(At(d, p + 1), At(d, p - 1)) {
      if p > 0 { assert links[c[p - 1]] == Link(At(c, p), At(c, p - 2)); }
    }
  }

  lemma PushElsewhere(links: Links, head: HashEntry?, e: HashEntry, h: HashEntry?, d: Chain)
    requires ChainOk(links, h, d) && e !in d && head !in d && (head != null ==> head in links)
    ensures ChainOk(Pushed(links, head, e), h, d)
  {
    var l := Pushed(links, head, e);
    forall p | 0 <= p < |d| ensures d[p] in l && l[d[p]] == Link(At(d, p + 1), At(d, p - 1)) {
      assert links[d[p]] == Link(At(d, p + 1), At(d, p - 1));
    }
  }

  /** A chain whose next pointers can be followed, whatever its previous pointers are. */
  ghost predicate NextOk(links: Links, c: Chain) {
    forall p {:trigger links[c[p]]} {:trigger c[p] in links} ::
      0 <= p < |c| ==> c[p] in links && links[c[p]].next == At(c, p + 1)
  }

  lemma PushNext(links: Links, head: HashEntry?, e: HashEntry, c: Chain)
    requires NextOk(links, c) && e !in c && (head != null ==> head in links)
    ensures NextOk(Pushed(links, head, e), c)
  {
    var l := Pushed(links, head, e);
    forall p | 0 <= p < |c| ensures c[p] in l && l[c[p]].next == At(c, p + 1) {
      assert c[p] in links && links[c[p]].next == At(c, p + 1);
    }
  }

  lemma PushTable(links: Links, heads: seq<HashEntry?>, cs: Chains, b: nat, e: HashEntry)
    requires TableOk(links, heads, cs, -1) && NoRepeats(cs) && b < |cs|
    requires forall b', p :: 0 <= b' < |cs| && b' != b && 0 <= p < |cs[b]| ==> cs[b][p] !in cs[b']
    requires forall b' :: 0 <= b' < |cs| ==> e !in cs[b']
    ensures heads[b] != null ==> heads[b] in links
    ensures TableOk(Pushed(links, heads[b], e), heads[b := e], cs[b := [e] + cs[b]], -1)
  {
    assert ChainOk(links, heads[b], cs[b]) && NoRepeat(cs[b]);
    PushChain(links, heads[b], cs[b], e);
    var l := Pushed(links, heads[b], e);
    forall b' | 0 <= b' < |cs| && b' != b ensures ChainOk(l, heads[b'], cs[b']) {
      PushElsewhere(links, heads[b], e, heads[b'], cs[b']);
    }
  }

  lemma PushOtherTable(links: Links, heads: seq<HashEntry?>, cs: Chains, but: int, head: HashEntry?, e: HashEntry)
    requires TableOk(links, heads, cs, but) && (head != null ==> head in links)
    requires forall b :: 0 <= b < |cs| && b != but ==> e !in cs[b] && head !in cs[b]
    ensures TableOk(Pushed(links, head, e), heads, cs, but)
  {
    forall b | 0 <= b < |cs| && b != but ensures ChainOk(Pushed(links, head, e), heads[b], cs[b]) {
      PushElsewhere(links, head, e, heads[b], cs[b]);
    }
  }

  // ---------------------------------------------------------------- what the tables hold

  /** Every entry of the table `cs` of 2^n buckets is the entry of its key, in the bucket of its key. */
  ghost predicate Hosts(hash: Hash, entries: map<string, HashEntry>, cs: Chains, n: nat) {
    && (cs == [] || |cs| == Pow2(n))
    && forall b, p {:trigger cs[b][p]} :: 0 <= b < |cs| && 0 <= p < |cs[b]| ==>
         var e := cs[b][p]; e.key in entries && entries[e.key] == e && Slot(hash, e.key, n) == b
  }

  ghost predicate NoRepeats(cs: Chains) {
    forall b :: 0 <= b < |cs| ==> NoRepeat(cs[b])
  }

  ghost predicate InTable(hash: Hash, cs: Chains, n: nat, e: HashEntry) {
    |cs| == Pow2(n) && e in cs[Slot(hash, e.key, n)]
  }

  /** How many entries of the table `cs` have `key`. */
  ghost function Held(hash: Hash, entries: map<string, HashEntry>, cs: Chains, n: nat, key: string): nat {
    if key in entries && InTable(hash, cs, n, entries[key]) then 1 else 0
  }

  /** Every entry is in exactly one of the tables. */
  ghost predicate OneHome(hash: Hash, entries: map<string, HashEntry>, c0: Chains, n0: nat, c1: Chains, n1: nat) {
    forall k :: k in entries ==>
      entries[k].key == k && (InTable(hash, c0, n0, entries[k]) <==> !InTable(hash, c1, n1, entries[k]))
  }

  /** Together the tables hold exactly `entries`. */
  ghost predicate Holds(hash: Hash, entries: map<string, HashEntry>, c0: Chains, n0: nat, c1: Chains, n1: nat) {
    Hosts(hash, entries, c0, n0) && Hosts(hash, entries, c1, n1) && NoRepeats(c0) && NoRepeats(c1)
    && OneHome(hash, entries, c0, n0, c1, n1)
  }

  /** An entry of one bucket is in no other bucket, and not in the other table. */
  lemma Elsewhere(hash: Hash, entries: map<string, HashEntry>, c0: Chains, n0: nat, c1: Chains, n1: nat, b: nat, p: nat)
    requires Holds(hash, entries, c0, n0, c1, n1) && b < |c0| == Pow2(n0) && p < |c0[b]|
    ensures forall b' :: 0 <= b' < |c0| && b' != b ==> c0[b][p] !in c0[b']
    ensures |c1| == Pow2(n1) ==> forall b' :: 0 <= b' < |c1| ==> c0[b][p] !in c1[b']
    ensures forall q :: 0 <= q < |c0[b]| && q != p ==> c0[b][q] != c0[b][p]
  {
    assert NoRepeat(c0[b]);
    var e := c0[b][p];
    assert InTable(hash, c0, n0, entries[e.key]);
  }

  /** The first entry of a bucket moves to the other table. */
  lemma MoveHolds(hash: Hash, entries: map<string, HashEntry>, c0: Chains, n0: nat, c1: Chains, n1: nat, i: nat)
    requires Holds(hash, entries, c0, n0, c1, n1) && i < |c0| == Pow2(n0) && c0[i] != [] && |c1| == Pow2(n1)
    ensures var e := c0[i][0]; var b := Slot(hash, e.key, n1);
      Holds(hash, entries, c0[i := c0[i][1..]], n0, c1[b := [e] + c1[b]], n1)
  {
    var e := c0[i][0];
    var b := Slot(hash, e.key, n1);
    Elsewhere(hash, entries, c0, n0, c1, n1, i, 0);
    var d0, d1 := c0[i := c0[i][1..]], c1[b := [e] + c1[b]];
    assert NoRepeat(c1[b]) && NoRepeat(c0[i]);
    assert Hosts(hash, entries, d0, n0) && NoRepeats(d0);
    assert Hosts(hash, entries, d1, n1) && NoRepeats(d1);
    forall k | k in entries
      ensures InTable(hash, d0, n0, entries[k]) <==> !InTable(hash, d1, n1, entries[k])
    {
      var f := entries[k];
      assert c0[i] == [e] + d0[i];
      assert f != e ==> (f in c0[i] <==> f in d0[i]) && (f in c1[b] <==> f in d1[b]);
    }
  }

  /** A new entry enters the second table. */
  lemma InsertHolds(hash: Hash, entries: map<string, HashEntry>, c0: Chains, n0: nat, c1: Chains, n1: nat, e: HashEntry)
    requires Holds(hash, entries, c0, n0, c1, n1) && |c1| == Pow2(n1) && e.key !in entries
    ensures var b := Slot(hash, e.key, n1);
      Holds(hash, entries[e.key := e], c0, n0, c1[b := [e] + c1[b]], n1)
  {
    var b := Slot(hash, e.key, n1);
    var d1, es := c1[b := [e] + c1[b]], entries[e.key := e];
    assert NoRepeat(c1[b]);
    assert Hosts(hash, es, c0, n0);
    assert Hosts(hash, es, d1, n1) && NoRepeats(d1);
    forall k | k in es ensures InTable(hash, c0, n0, es[k]) <==> !InTable(hash, d1, n1, es[k]) {
      var f := es[k];
      assert f != e ==> (f in c1[b] <==> f in d1[b]);
    }
  }

  /** An entry leaves the first table. */
  lemma DeleteHolds(hash: Hash, entries: map<string, HashEntry>, c0: Chains, n0: nat, c1: Chains, n1: nat, b: nat,
                    p: nat)
    requires Holds(hash, entries, c0, n0, c1, n1) && b < |c0| == Pow2(n0) && p < |c0[b]|
    ensures Holds(hash, entries - {c0[b][p].key}, c0[b := Without(c0[b], p)], n0, c1, n1)
  {
    var e, d0, es := c0[b][p], c0[b := Without(c0[b], p)], entries - {c0[b][p].key};
    Elsewhere(hash, entries, c0, n0, c1, n1, b, p);
    assert NoRepeat(c0[b]);
    assert Hosts(hash, es, d0, n0) && NoRepeats(d0);
    assert Hosts(hash, es, c1, n1);
    forall k | k in es ensures InTable(hash, d0, n0, es[k]) <==> !InTable(hash, c1, n1, es[k]) {
      var f := es[k];
      assert f != e ==> (f in c0[b] <==> f in d0[b]);
    }
  }

  ghost function Without(c: Chain, p: nat): (r: Chain)
    requires p < |c|
    ensures |r| == |c| - 1
    ensures forall q :: 0 <= q < p ==> r[q] == c[q]
    ensures forall q :: p <= q < |r| ==> r[q] == c[q + 1]
    ensures forall e :: e in r ==> e in c
    ensures forall e :: e in c && e != c[p] ==> e in r
  {
    c[..p] + c[p + 1..]
  }

  lemma HoldsSwap(hash: Hash, entries: map<string, HashEntry>, c0: Chains, n0: nat, c1: Chains, n1: nat)
    requires Holds(hash, entries, c0, n0, c1, n1)
    ensures Holds(hash, entries, c1, n1, c0, n0)
  {
  }

  ghost function Total(cs: Chains): nat {
    if cs == [] then 0 else |cs[0]| + Total(cs[1..])
  }

  lemma {:induction false} TotalUpdate(cs: Chains, b: nat, c: Chain)
    requires b < |cs|
    ensures Total(cs[b := c]) == Total(cs) - |cs[b]| + |c|
  {
    if b == 0 {
      assert cs[0 := c][1..] == cs[1..];
    } else {
      assert cs[b := c][1..] == cs[1..][b - 1 := c];
      TotalUpdate(cs[1..], b - 1, c);
    }
  }

  lemma {:induction false} TotalZero(cs: Chains)
    ensures Total(cs) == 0 <==> forall b :: 0 <= b < |cs| ==> cs[b] == []
  {
    if cs != [] {
      TotalZero(cs[1..]);
      assert forall b :: 0 < b < |cs| ==> cs[b] == cs[1..][b - 1];
    }
  }

  /** A table of empty buckets. */
  ghost function Hollow(n: nat): (cs: Chains)
    ensures |cs| == n && Total(cs) == 0 && forall b :: 0 <= b < n ==> cs[b] == []
  {
    TotalZero(seq(n, _ => []));
    seq(n, _ => [])
  }

  /** `len` is the least exponent above `n` with room for four times `used` entries. */
  ghost predicate Grown(len: nat, n: nat, used: int) {
    len > n && Pow2(len) > 4 * used && (len == n + 1 || Pow2(len - 1) <= 4 * used)
  }

  ghost predicate EmptyBelow(cs: Chains, i: int) {
    forall b :: 0 <= b < i && b < |cs| ==> cs[b] == []
  }

  ghost function Heads(t: array?<HashEntry?>): (heads: seq<HashEntry?>)
    reads t
  {
    if t == null then [] else t[..]
  }

  /** Puts `e` in front of bucket `b`. */
  method PushFront(t: array<HashEntry?>, b: nat, e: HashEntry, ghost es: set<HashEntry>)
    requires b < t.Length && e in es && t[b] != e && (t[b] != null ==> t[b] in es)
    modifies t, es`next, es`prev
    ensures t[..] == old(t[..])[b := e]
    ensures LinksOf(es) == Pushed(old(LinksOf(es)), old(t[b]), e)
  {
    e.next := t[b];
    e.prev := null;
    if t[b] != null {
      t[b].prev := e;
    }
    t[b] := e;
  }

  /** Takes `entry`, which follows `prev`, out of bucket `b`. */
  method UnlinkEntry(t: array<HashEntry?>, b: nat, entry: HashEntry, prev: HashEntry?, ghost es: set<HashEntry>)
    requires b < t.Length && entry in es && (prev != null ==> prev in es && prev != entry)
    requires entry.next != null ==> entry.next in es && entry.next != entry
    modifies t, es`next, es`prev
    ensures t[..] == if prev == null then old(t[..])[b := old(entry.next)] else old(t[..])
    ensures LinksOf(es) == Unlinked(old(LinksOf(es)), entry, prev)
  {
    if prev == null {
      t[b] := entry.next;
    } else {
      prev.next := entry.next;
    }
    if entry.next != null {
      entry.next.prev := prev;
    }
  }

  ghost function Unlinked(links: Links, e: HashEntry, prev: HashEntry?): Links
    requires e in links && (prev != null ==> prev in links) && (links[e].next != null ==> links[e].next in links)
  {
    var next := links[e].next;
    var l := if prev == null then links else links[prev := links[prev].(next := next)];
    if next == null then l else l[next := l[next].(prev := prev)]
  }

  lemma UnlinkChain(links: Links, head: HashEntry?, c: Chain, p: nat)
    requires ChainOk(links, head, c) && NoRepeat(c) && p < |c|
    ensures c[p] in links && links[c[p]].next == At(c, p + 1) && (p > 0 ==> c[p - 1] in links)
    ensures At(c, p + 1) != null ==> At(c, p + 1) in links
    ensures ChainOk(Unlinked(links, c[p], At(c, p - 1)), if p == 0 then links[c[p]].next else head, Without(c, p))
  {
    assert links[c[p]] == Link(At(c, p + 1), At(c, p - 1));
    assert p > 0 ==> c[p - 1] in links;
    assert p + 1 < |c| ==> c[p + 1] in links;
    var l, d := Unlinked(links, c[p], At(c, p - 1)), Without(c, p);
    forall q | 0 <= q < |d| ensures d[q] in l && l[d[q]] == Link(At(d, q + 1), At(d, q - 1)) {
      var r := if q < p then q else q + 1;
      assert d[q] == c[r] && links[c[r]] == Link(At(c, r + 1), At(c, r - 1));
    }
  }

  lemma UnlinkElsewhere(links: Links, h: HashEntry?, d: Chain, e: HashEntry, prev: HashEntry?)
    requires ChainOk(links, h, d) && e in links && (prev != null ==> prev in links && prev !in d)
    requires links[e].next != null ==> links[e].next in links && links[e].next !in d
    ensures ChainOk(Unlinked(links, e, prev), h, d)
  {
    var l := Unlinked(links, e, prev);
    forall p | 0 <= p < |d| ensures d[p] in l && l[d[p]] == Link(At(d, p + 1), At(d, p - 1)) {
      assert links[d[p]] == Link(At(d, p + 1), At(d, p - 1));
    }
  }

  /** An entry in no chain can be forgotten. */
  lemma ForgetTable(links: Links, heads: seq<HashEntry?>, cs: Chains, e: HashEntry)
    requires TableOk(links, heads, cs, -1) && forall b :: 0 <= b < |cs| ==> e !in cs[b]
    ensures TableOk(links - {e}, heads, cs, -1)
  {
    forall b | 0 <= b < |cs| ensures ChainOk(links - {e}, heads[b], cs[b]) {
      var c := cs[b];
      assert ChainOk(links, heads[b], c);
      forall p | 0 <= p < |c| ensures c[p] in links && c[p] != e && links[c[p]] == Link(At(c, p + 1), At(c, p - 1)) {
        assert c[p] in links;
      }
    }
  }

  lemma ForgetEntry(es: set<HashEntry>, e: HashEntry)
    ensures LinksOf(es - {e}) == LinksOf(es) - {e}
  {
  }

  class HashTable {
    const hash: Hash
    var table: array?<HashEntry?>
    var rehashTable: array?<HashEntry?>
    var size0: nat
    var size1: nat
    var used0: int
    var used1: int
    var idx: int
    ghost var entries: map<string, HashEntry>
    ghost var c0: Chains
    ghost var c1: Chains
    ghost var repr: set<HashEntry>

    constructor (hash: Hash)
      ensures Valid() && this.hash == hash && entries == map[] && repr == {}
      ensures idx == -1 && size0 == 0 && used0 == 0 && table == null && rehashTable == null
    {
      this.hash := hash;
      table, rehashTable, size0, size1, used0, used1, idx := null, null, 0, 0, 0, 0, -1;
      entries, c0, c1, repr := map[], [], [], {};
    }

    /** Pointers: every bucket of both tables is the chain it should be. */
    ghost predicate Linked()
      reads this, table, rehashTable, repr`next, repr`prev
    {
      && TableOk(LinksOf(repr), Heads(table), c0, -1)
      && TableOk(LinksOf(repr), Heads(rehashTable), c1, -1)
    }

    /** Contents and counters. */
    ghost predicate Content()
      reads this
    {
      && Holds(hash, entries, c0, size0, c1, size1)
      && used0 == Total(c0) && used1 == Total(c1) && |entries| == used0 + used1
    }

    ghost predicate Idle()
      reads this
    {
      && idx == -1 && rehashTable == null && size1 == 0 && c1 == [] && used1 == 0
      && (table == null <==> size0 == 0) && |c0| == if size0 == 0 then 0 else Pow2(size0)
    }

    ghost predicate Rehashing()
      reads this
    {
      && 0 <= idx < Pow2(size0) && 1 <= size0 < size1 && EmptyBelow(c0, idx)
      && table != null && rehashTable != null && table != rehashTable && |c0| == Pow2(size0) && |c1| == Pow2(size1)
    }

    /** Load factor at most 1, with `room` to spare; while rehashing the new table cannot overfill before it is done. */
    ghost predicate Load(room: nat)
      reads this
    {
      used0 + used1 + room <= if idx == -1 then Pow2(size0) else Pow2(size0) + idx + 1
    }

    ghost predicate Valid()
      reads this, table, rehashTable, repr`next, repr`prev
    {
      Content() && Linked() && (if idx == -1 then Idle() else Rehashing()) && Load(0)
    }

    /** The first table with the bucket under the cursor cleared. */
    ghost function Swept(): Chains
      reads this
    {
      if 0 <= idx < |c0| then c0[idx := []] else c0
    }

    /** During a rehash: entries are left in the first table after those of the bucket under the cursor. */
    ghost predicate GoesOn()
      reads this
    {
      0 <= idx < |c0| && used0 != |c0[idx]|
    }

    /** The exponent of the newest table. */
    ghost function Newest(): nat
      reads this
    {
      if idx == -1 then size0 else size1
    }

    /** In the middle of `ReHash`: bucket `idx` has lost the entries before `entry`. */
    ghost predicate Moving(entry: HashEntry?)
      reads this, table, rehashTable, repr`next, repr`prev
    {
      && Rehashing() && used0 == Total(c0) && used1 == Total(c1) && |entries| == used0 + used1
      && Mid(hash, entries, LinksOf(repr), Heads(table), Heads(rehashTable), c0, size0, c1, size1, idx, entry)
    }

    /** The bucket of the second table for an entry of bucket `idx` of the first. */
    method TargetBucket(entry: HashEntry) returns (b: nat)
      requires 0 <= idx && Slot(hash, entry.key, size0) == idx
      ensures b == Slot(hash, entry.key, size1)
    {
      if size0 < size1 {
        b := Mask(hash(entry.key), size1);
      } else {
        MaskOfMask(hash(entry.key), size1, size0);
        b := Mask(idx, size1);
      }
    }

    /**
     One step of a rehash: the entries of the bucket under the cursor move to the second table, which replaces the
     first one when nothing is left there.
     */
    method ReHash()
      requires Valid()
      modifies `table, `rehashTable, `size0, `size1, `used0, `used1, `idx, `c0, `c1
      modifies table, rehashTable, repr`next, repr`prev
      ensures Valid() && size0 + size1 >= old(size0) && used0 + used1 == old(used0 + used1)
      ensures old(idx) == -1 ==> idx == -1 && size0 == old(size0) && used0 == old(used0)
      ensures idx == -1 ==> old(idx) == -1 || size0 == old(size1)
      ensures idx != -1 ==> idx == old(idx) + 1 && size0 == old(size0) && size1 == old(size1) && Load(1)
      ensures old(idx) != -1 ==> (idx != -1 <==> old(GoesOn()))
      ensures idx != -1 ==> c0 == old(Swept())
      ensures old(used0 + used1) == 0 ==> idx == -1
      ensures idx == -1 ==> used0 == old(used0 + used1) && table == old(if idx == -1 then table else rehashTable)
      ensures (table == old(table) || table == old(rehashTable))
        && (rehashTable == old(rehashTable) || rehashTable == null)
    {
      if idx == -1 {
        return;
      }
      hide Mid, Total, Holds, TableOk, EmptyBelow;
      StartMoving(hash, entries, LinksOf(repr), Heads(table), Heads(rehashTable), c0, size0, c1, size1, idx);
      var entry := table[idx];
      MoveBucket(entry);
      EndBucket();
    }

    /** The loop of `ReHash`. */
    method MoveBucket(first: HashEntry?)
      requires Moving(first)
      modifies `used0, `used1, `c0, `c1, rehashTable, repr`next, repr`prev
      ensures Moving(null) && used0 + used1 == old(used0 + used1)
      ensures c0 == old(Swept()) && (used0 != 0 <==> old(GoesOn()))
    {
      hide Mid, Total, TableOk;
      var entry := first;
      while entry != null
        invariant Moving(entry) && used0 + used1 == old(used0 + used1)
        invariant used0 - |c0[idx]| == old(used0 - |c0[idx]|) && Swept() == old(Swept())
        decreases |c0[idx]|
      {
        entry := MoveFirst(entry);
      }
      NoneLeft(hash, entries, LinksOf(repr), Heads(table), Heads(rehashTable), c0, size0, c1, size1, idx);
    }

    /** The rest of `ReHash`: the bucket is cleared, and the cursor moves on, or the tables are exchanged. */
    method EndBucket()
      requires Moving(null) && Load(0)
      modifies `table, `rehashTable, `size0, `size1, `used0, `used1, `idx, `c0, `c1, table
      ensures Valid() && used0 + used1 == old(used0 + used1)
      ensures (idx != -1 <==> old(used0) != 0) && (idx != -1 ==> c0 == old(c0))
      ensures if idx == -1 then size0 == old(size1)
              else idx == old(idx) + 1 && size0 == old(size0) && size1 == old(size1) && Load(1)
      ensures if idx == -1 then table == old(rehashTable) && rehashTable == null
              else table == old(table) && rehashTable == old(rehashTable)
    {
      hide Mid, Total, Holds, TableOk;
      EndMoving(hash, entries, LinksOf(repr), Heads(table), Heads(rehashTable), c0, size0, c1, size1, idx);
      Pow2Grows(size0, size1);
      table[idx] := null;
      if used0 == 0 {
        ExchangeTables();
        return;
      }
      idx := idx + 1;
    }

    /** The second table takes the place of the first. */
    method ExchangeTables()
      modifies `table, `rehashTable, `size0, `size1, `used0, `used1, `idx, `c0, `c1
      ensures idx == -1 && used0 == old(used1) && used1 == 0 && size0 == old(size1) && size1 == 0
      ensures table == old(rehashTable) && rehashTable == null && c0 == old(c1) && c1 == []
    {
      idx := -1;
      used0 := used1;
      size0 := size1;
      used1 := 0;
      size1 := 0;
      table := rehashTable;
      rehashTable := null;
      c0, c1 := c1, [];
    }

    predicate NeedExpend()
      reads this
    {
      size0 == 0 || (idx == -1 && used0 >= Pow2(size0))
    }

    predicate NeedReduce()
      reads this
    {
      idx == -1 && 2 * used0 <= Pow2(size0)
    }

    /** The size to grow to: the first exponent above the current one that leaves room for four times the entries. */
    method ExpendSize() returns (len: nat)
      ensures if size0 == 0 then len == 4
              else len > size0 && Pow2(len) > 4 * used0 && (len == size0 + 1 || Pow2(len - 1) <= 4 * used0)
      ensures size0 > 0 == used0 ==> len == size0 + 1
    {
      if size0 == 0 {
        return 4;
      }
      var target := 4 * used0;
      len := size0 + 1;
      while Pow2(len) <= target
        invariant len > size0 && (len == size0 + 1 || Pow2(len - 1) <= target)
        decreases target - Pow2(len)
      {
        len := len + 1;
      }
    }

    /** Makes the first table, or starts a rehash into a second one. */
    method ExpendOrReduce(len: nat)
      requires Valid() && idx == -1 && len > size0
      modifies `table, `rehashTable, `size0, `size1, `idx, `c0, `c1
      ensures Valid() && used0 == old(used0)
      ensures if old(size0) == 0 then idx == -1 && size0 == len && fresh(table) && rehashTable == null
              else idx == 0 && size0 == old(size0) && size1 == len && table == old(table) && fresh(rehashTable)
      ensures idx == 0 ==> Load(1) && c0 == old(c0)
    {
      hide Total, Holds, TableOk, LinksOf;
      var t := new HashEntry?[Pow2(len)](_ => null);
      HollowTable(hash, entries, LinksOf(repr), t[..], c0, size0, len);
      if size0 == 0 {
        Adopt(t, len);
      } else {
        StartRehash(t, len);
      }
    }

    method Adopt(t: array<HashEntry?>, len: nat)
      modifies `table, `size0, `c0
      ensures table == t && size0 == len && c0 == Hollow(Pow2(len))
    {
      table := t;
      size0 := len;
      c0 := Hollow(Pow2(len));
    }

    method StartRehash(t: array<HashEntry?>, len: nat)
      modifies `rehashTable, `size1, `idx, `c1
      ensures rehashTable == t && size1 == len && idx == 0 && c1 == Hollow(Pow2(len))
    {
      rehashTable := t;
      size1 := len;
      idx := 0;
      c1 := Hollow(Pow2(len));
    }

    /** Along one chain, up to `key`. */
    method Walk(head: HashEntry?, key: string, ghost c: Chain)
      returns (entry: HashEntry?, prev: HashEntry?, ghost p: nat)
      requires ChainOk(LinksOf(repr), head, c)
      ensures p <= |c| && entry == At(c, p) && prev == At(c, p - 1)
      ensures entry != null ==> entry.key == key
      ensures entry == null ==> forall e :: e in c ==> e.key != key
    {
      entry, prev, p := head, null, 0;
      while entry != null
        invariant p <= |c| && entry == At(c, p) && prev == At(c, p - 1)
        invariant forall q :: 0 <= q < p ==> c[q].key != key
        decreases |c| - p
      {
        if entry.key == key {
          return;
        }
        assert LinksOf(repr)[c[p]].next == At(c, p + 1);
        prev := entry;
        entry := entry.next;
        p := p + 1;
      }
    }

    /** Looks for `key` in its bucket of the first table, then, during a rehash, in its bucket of the second. */
    method Lookup(key: string) returns (i: int, b: nat, entry: HashEntry?, prev: HashEntry?, ghost p: nat)
      requires Valid() && size0 > 0
      ensures entry == null ==> key !in entries
      ensures entry != null ==>
        0 <= i < 2 && (i == 1 ==> idx != -1) && key in entries && entry == entries[key] && entry.key == key
      ensures entry != null ==>
        var cs := if i == 0 then c0 else c1;
        b < |cs| && p < |cs[b]| && entry == cs[b][p] && prev == At(cs[b], p - 1)
      ensures entry != null ==> (i == 0 <==> InTable(hash, c0, size0, entry))
    {
      hide Total, LinksOf, ChainOk, Holds, Mask, Pow2, EmptyBelow;
      i, b, entry, prev, p := 0, 0, null, null, 0;
      while i < 2
        invariant 0 <= i <= 2 && (i > 0 ==> idx != -1)
        invariant i > 0 ==> !KeyIn(key, c0[Slot(hash, key, size0)])
        invariant i > 1 ==> !KeyIn(key, c1[Slot(hash, key, size1)])
      {
        var t := if i == 0 then table else rehashTable;
        b := Mask(hash(key), if i == 0 then size0 else size1);
        entry, prev, p := Walk(t[b], key, if i == 0 then c0[b] else c1[b]);
        if entry != null {
          Found(hash, entries, c0, size0, c1, size1, entry);
          return;
        }
        if idx == -1 {
          break;
        }
        i := i + 1;
      }
      if key in entries { Present(hash, entries, c0, size0, c1, size1, key); }
      entry := null;
    }

    /** What `FindBucketByKey` and `Delete` start with: a step of a rehash, and a new table if one is needed. */
    method Advance(deleting: bool)
      requires Valid()
      modifies `table, `rehashTable, `size0, `size1, `used0, `used1, `idx, `c0, `c1
      modifies table, rehashTable, repr`next, repr`prev
      ensures Valid() && size0 > 0 && size0 >= old(size0)
      ensures table == old(table) || table == old(rehashTable) || fresh(table)
      ensures rehashTable == old(rehashTable) || rehashTable == null || fresh(rehashTable)
      ensures !deleting ==> Load(1)
      ensures old(idx) != -1 ==>
        size0 == old(size1) || (idx == old(idx) + 1 && size0 == old(size0) && size1 == old(size1))
      ensures old(size0 > 0 && !GoesOn()) ==>
        && size0 == old(Newest())
        && if old(if deleting then 2 * (used0 + used1) <= Pow2(Newest()) else used0 + used1 >= Pow2(Newest()))
           then idx == 0 && Grown(size1, size0, old(used0 + used1))
           else idx == -1 && table == old(if idx == -1 then table else rehashTable)
      ensures old(size0) == 0 ==> idx == -1 && size0 == 4
      ensures old(idx) == -1 && old(size0) > 0 ==> c0 == old(c0)
      ensures old(GoesOn()) ==> 0 < idx == old(idx) + 1 && size0 == old(size0) && c0 == old(Swept())
      ensures old(GoesOn()) ==> used0 == Total(old(Swept()))
      ensures deleting && old(used0 + used1) == 0 < old(size0) ==>
        idx == 0 && size0 == old(if idx == -1 then size0 else size1) && size1 == size0 + 1
    {
      hide HashTable.Valid, HashTable.Load, HashTable.Swept, Total, Pow2;
      Shaped();
      if idx != -1 {
        ReHash();
      }
      Resize(deleting);
    }

    lemma Shaped()
      requires Valid()
      ensures idx >= -1 && used0 >= 0 && used1 >= 0 && (idx == -1 ==> used1 == 0)
      ensures idx != -1 ==> 0 < size0 < size1 && idx < |c0|
    {
    }

    /**
     A new table if one is needed: the first one, or a larger one for a full table or, when deleting, a sparse one.
     */
    method Resize(deleting: bool)
      requires Valid()
      modifies `table, `rehashTable, `size0, `size1, `idx, `c0, `c1
      ensures Valid() && used0 == Total(c0)
      ensures !deleting && old(idx != -1 ==> Load(1)) ==> Load(1)
      ensures old(size0) == 0 ==> idx == -1 && size0 == 4 && fresh(table) && rehashTable == null
      ensures old(size0) > 0 ==> table == old(table) && size0 == old(size0) && c0 == old(c0)
      ensures old(size0) > 0 && old(idx) == -1 ==>
        if old(if deleting then 2 * used0 <= Pow2(size0) else used0 >= Pow2(size0))
        then idx == 0 && Grown(size1, size0, used0) && fresh(rehashTable)
        else idx == -1 && rehashTable == null
      ensures old(idx) != -1 ==>
        old(size0) > 0 && idx == old(idx) && size1 == old(size1) && rehashTable == old(rehashTable)
    {
      hide Holds, Total, TableOk, EmptyBelow, LinksOf, Heads, Pow2;
      if (if deleting then NeedReduce() else NeedExpend()) {
        var len := ExpendSize();
        ExpendOrReduce(len);
      }
    }

    /**
     Advances a rehash, starts one if the table is full, and looks for `key`: its entry if there is one, else the bucket
     a new entry belongs in.
     */
    method FindBucketByKey(key: string) returns (bucket: nat, entry: HashEntry?)
      requires Valid()
      modifies `table, `rehashTable, `size0, `size1, `used0, `used1, `idx, `c0, `c1
      modifies table, rehashTable, repr`next, repr`prev
      ensures Valid() && size0 > 0
      ensures table == old(table) || table == old(rehashTable) || fresh(table)
      ensures rehashTable == old(rehashTable) || rehashTable == null || fresh(rehashTable)
      ensures entry == if key in entries then entries[key] else null
      ensures size0 >= old(size0)
      ensures entry == null ==> Load(1) && bucket == Slot(hash, key, if idx == -1 then size0 else size1)
      ensures old(idx) != -1 ==>
        size0 == old(size1) || (idx == old(idx) + 1 && size0 == old(size0) && size1 == old(size1))
      ensures old(size0 > 0 && !GoesOn()) ==>
        && size0 == old(Newest())
        && if old(used0 + used1 >= Pow2(Newest())) then idx == 0 && Grown(size1, size0, old(used0 + used1))
           else idx == -1 && table == old(if idx == -1 then table else rehashTable)
      ensures old(size0) == 0 ==> idx == -1 && size0 == 4
      ensures old(GoesOn()) ==> 0 < idx == old(idx) + 1 && size0 == old(size0) && c0 == old(Swept())
    {
      hide Holds, Total, TableOk, EmptyBelow, Mask, LinksOf, Heads;
      Advance(false);
      var i, b, e, prev, p := Lookup(key);
      entry := e;
      bucket := if idx != -1 then Mask(hash(key), size1) else Mask(hash(key), size0);
      assert bucket == Slot(hash, key, if idx == -1 then size0 else size1);
    }

    /** The entry of `key`, or null; what the table stands for does not change. */
    method FindByKey(key: string) returns (entry: HashEntry?)
      requires Valid()
      modifies `table, `rehashTable, `size0, `size1, `used0, `used1, `idx, `c0, `c1
      modifies table, rehashTable, repr`next, repr`prev
      ensures Valid()
      ensures table == old(table) || table == old(rehashTable) || fresh(table)
      ensures rehashTable == old(rehashTable) || rehashTable == null || fresh(rehashTable)
      ensures size0 >= old(size0)
      ensures old(idx) != -1 ==>
        size0 == old(size1) || (idx == old(idx) + 1 && size0 == old(size0) && size1 == old(size1))
      ensures old(size0 > 0 && !GoesOn()) ==>
        && size0 == old(Newest())
        && if old(used0 + used1 >= Pow2(Newest())) then idx == 0 && Grown(size1, size0, old(used0 + used1))
           else idx == -1 && table == old(if idx == -1 then table else rehashTable)
      ensures old(size0) == 0 ==> idx == -1 && size0 == 4
      ensures entry == if key in entries then entries[key] else null
    {
      var bucket;
      bucket, entry := FindBucketByKey(key);
    }

    /** Adds a new entry in front of bucket `bucket` of the newest table. */
    method InsertToBucket(key: string, val: int, bucket: nat) returns (entry: HashEntry)
      requires Valid() && size0 > 0 && Load(1) && key !in entries
      requires bucket == Slot(hash, key, if idx == -1 then size0 else size1)
      modifies `used0, `used1, `c0, `c1, `entries, `repr, table, rehashTable, repr`next, repr`prev
      ensures Valid() && fresh(entry) && entry.key == key && entry.val == val
      ensures entries == old(entries)[key := entry] && repr == old(repr) + {entry}
      ensures used0 == old(used0) + (if idx == -1 then 1 else 0)
      ensures idx != -1 ==> c0 == old(c0) && bucket < |old(c1)| && c1 == Gained(old(c1), bucket, entry)
      ensures idx == -1 ==> c1 == old(c1) && bucket < |old(c0)| && c0 == Gained(old(c0), bucket, entry)
    {
      hide Holds, Total, TableOk, EmptyBelow, Mask, LinksOf, Pushed, Gained;
      entry := new HashEntry(key, val);
      NewEntry(repr, entry);
      if idx != -1 {
        InsertStep(hash, entries, LinksOf(repr), Heads(table), c0, size0, Heads(rehashTable), c1, size1, entry);
        PushFront(rehashTable, bucket, entry, repr + {entry});
        assert entry.val == val;
        CountNew(entry, c0, Gained(c1, bucket, entry));
      } else {
        HoldsSwap(hash, entries, c0, size0, c1, size1);
        InsertStep(hash, entries, LinksOf(repr), Heads(rehashTable), c1, size1, Heads(table), c0, size0, entry);
        PushFront(table, bucket, entry, repr + {entry});
        assert entry.val == val;
        HoldsSwap(hash, entries[key := entry], c1, size1, Gained(c0, bucket, entry), size0);
        CountNew(entry, Gained(c0, bucket, entry), c1);
      }
    }

    method CountNew(entry: HashEntry, ghost d0: Chains, ghost d1: Chains)
      requires (if idx == -1 then Idle() else Rehashing() && d0 == c0) && Load(1) && entry.key !in entries
      requires used0 == Total(c0) && used1 == Total(c1) && |entries| == used0 + used1 && |d0| == |c0|
      requires if idx == -1 then Total(d0) == Total(c0) + 1 && d1 == c1 else Total(d1) == Total(c1) + 1 && |d1| == |c1|
      requires Holds(hash, entries[entry.key := entry], d0, size0, d1, size1)
      requires TableOk(LinksOf(repr + {entry}), Heads(table), d0, -1)
      requires TableOk(LinksOf(repr + {entry}), Heads(rehashTable), d1, -1)
      modifies `used0, `used1, `c0, `c1, `entries, `repr
      ensures Valid() && entries == old(entries)[entry.key := entry] && repr == old(repr) + {entry}
      ensures used0 == old(used0) + (if idx == -1 then 1 else 0) && c0 == d0 && c1 == d1
    {
      hide Holds, Total, TableOk, EmptyBelow, LinksOf, Heads, Pow2;
      AddOne(entry, d0, d1);
    }

    method AddOne(entry: HashEntry, ghost d0: Chains, ghost d1: Chains)
      modifies `used0, `used1, `c0, `c1, `entries, `repr
      ensures used0 == (if idx == -1 then old(used0) + 1 else old(used0))
      ensures used1 == if idx == -1 then old(used1) else old(used1) + 1
      ensures c0 == d0 && c1 == d1 && entries == old(entries)[entry.key := entry] && repr == old(repr) + {entry}
    {
      if idx != -1 { used1 := used1 + 1; } else { used0 := used0 + 1; }
      c0, c1, entries, repr := d0, d1, entries[entry.key := entry], repr + {entry};
    }

    /** Adds an entry for a key that has none; null, and nothing added, if there is one already. */
    method Insert(key: string, val: int) returns (entry: HashEntry?)
      requires Valid()
      modifies `table, `rehashTable, `size0, `size1, `used0, `used1, `idx, `c0, `c1, `entries, `repr
      modifies table, rehashTable, repr`next, repr`prev
      ensures Valid()
      ensures table == old(table) || table == old(rehashTable) || fresh(table)
      ensures rehashTable == old(rehashTable) || rehashTable == null || fresh(rehashTable)
      ensures size0 >= old(size0)
      ensures old(idx) != -1 ==>
        size0 == old(size1) || (idx == old(idx) + 1 && size0 == old(size0) && size1 == old(size1))
      ensures old(size0 > 0 && !GoesOn()) ==>
        && size0 == old(Newest())
        && if old(used0 + used1 >= Pow2(Newest())) then idx == 0 && Grown(size1, size0, old(used0 + used1))
           else idx == -1 && table == old(if idx == -1 then table else rehashTable)
      ensures old(size0) == 0 ==> idx == -1 && size0 == 4
      ensures old(GoesOn()) ==> 0 < idx == old(idx) + 1 && size0 == old(size0) && c0 == old(Swept())
      ensures key in old(entries) ==> entry == null && entries == old(entries) && repr == old(repr)
      ensures key !in old(entries) ==>
        entry != null && fresh(entry) && entry.key == key && entry.val == val
        && entries == old(entries)[key := entry] && repr == old(repr) + {entry}
    {
      hide *;
      var bucket, found := FindBucketByKey(key);
      if found != null {
        return null;
      }
      entry := InsertToBucket(key, val, bucket);
    }

    /**
     Removes the entry of `key`, if there is one. A sparse table starts a rehash first, and since the new table is
     always larger than the old one, deleting never makes the table smaller.
     */
    method Delete(key: string)
      requires Valid()
      modifies `table, `rehashTable, `size0, `size1, `used0, `used1, `idx, `c0, `c1, `entries, `repr
      modifies table, rehashTable, repr`next, repr`prev
      ensures Valid() && size0 >= old(size0)
      ensures table == old(table) || table == old(rehashTable) || fresh(table)
      ensures rehashTable == old(rehashTable) || rehashTable == null || fresh(rehashTable)
      ensures old(idx) != -1 ==>
        size0 == old(size1) || (idx == old(idx) + 1 && size0 == old(size0) && size1 == old(size1))
      ensures entries == old(entries) - {key}
      ensures repr == if key in old(entries) then old(repr) - {old(entries)[key]} else old(repr)
      ensures old(size0 > 0 && !GoesOn()) ==>
        && size0 == old(Newest())
        && if old(2 * (used0 + used1) <= Pow2(Newest())) then idx == 0 && Grown(size1, size0, old(used0 + used1))
           else idx == -1 && table == old(if idx == -1 then table else rehashTable)
      ensures old(size0) == 0 ==> idx == -1 && size0 == 4
      ensures old(idx) == -1 && old(size0) > 0 && key !in old(entries) ==> c0 == old(c0)
      ensures old(GoesOn()) ==> 0 < idx == old(idx) + 1 && size0 == old(size0)
      ensures old(GoesOn()) ==> used0 == Total(old(Swept())) - Held(hash, old(entries), old(Swept()), size0, key)
      ensures old(used0 + used1) == 0 < old(size0) ==>
        idx == 0 && size0 == old(if idx == -1 then size0 else size1) && size1 == size0 + 1
    {
      hide *;
      Advance(true);
      TakeOut(key);
    }

    /** The second half of `Delete`: the search, and the entry leaves the table it is in. */
    method TakeOut(key: string)
      requires Valid() && size0 > 0
      modifies `used0, `used1, `c0, `c1, `entries, `repr, table, rehashTable, repr`next, repr`prev
      ensures Valid() && entries == old(entries) - {key}
      ensures repr == if key in old(entries) then old(repr) - {old(entries)[key]} else old(repr)
      ensures key !in old(entries) ==> c0 == old(c0)
      ensures used0 == old(used0) - Held(hash, old(entries), old(c0), size0, key)
    {
      hide HashTable.Valid, InTable;
      var i, b, entry, prev, p := Lookup(key);
      if entry != null {
        Remove(i, b, entry, prev, p);
      } else {
        assert entries - {key} == entries;
      }
    }

    /** Takes the entry out of bucket `b` of table `i`. */
    method Remove(i: int, b: nat, entry: HashEntry, prev: HashEntry?, ghost p: nat)
      requires Valid() && 0 <= i < 2 && (i == 1 ==> idx != -1)
      requires var cs := if i == 0 then c0 else c1;
        b < |cs| && p < |cs[b]| && entry == cs[b][p] && prev == At(cs[b], p - 1)
      modifies `used0, `used1, `c0, `c1, `entries, `repr, table, rehashTable, repr`next, repr`prev
      ensures Valid() && entries == old(entries) - {entry.key} && repr == old(repr) - {entry}
      ensures used0 == old(used0) - if i == 0 then 1 else 0
    {
      hide Holds, Total, TableOk, EmptyBelow, LinksOf, Unlinked, Lost;
      ghost var links := LinksOf(repr);
      if i == 0 {
        DeleteStep(hash, entries, links, Heads(table), c0, size0, Heads(rehashTable), c1, size1, b, p);
        UnlinkEntry(table, b, entry, prev, repr);
        ForgetEntry(repr, entry);
        CountGone(i, entry, Lost(c0, b, p), c1);
      } else {
        HoldsSwap(hash, entries, c0, size0, c1, size1);
        DeleteStep(hash, entries, links, Heads(rehashTable), c1, size1, Heads(table), c0, size0, b, p);
        UnlinkEntry(rehashTable, b, entry, prev, repr);
        HoldsSwap(hash, entries - {entry.key}, Lost(c1, b, p), size1, c0, size0);
        ForgetEntry(repr, entry);
        CountGone(i, entry, c0, Lost(c1, b, p));
      }
    }

    method CountGone(i: int, entry: HashEntry, ghost d0: Chains, ghost d1: Chains)
      requires (if idx == -1 then Idle() && d1 == c1 else Rehashing() && EmptyBelow(d0, idx)) && Load(0)
      requires used0 == Total(c0) && used1 == Total(c1) && |entries| == used0 + used1 && entry.key in entries
      requires |d0| == |c0| && |d1| == |c1|
      requires if i == 0 then Total(d0) == Total(c0) - 1 && d1 == c1 else Total(d1) == Total(c1) - 1 && d0 == c0
      requires Holds(hash, entries - {entry.key}, d0, size0, d1, size1)
      requires TableOk(LinksOf(repr - {entry}), Heads(table), d0, -1)
      requires TableOk(LinksOf(repr - {entry}), Heads(rehashTable), d1, -1)
      modifies `used0, `used1, `c0, `c1, `entries, `repr
      ensures Valid() && entries == old(entries) - {entry.key} && repr == old(repr) - {entry}
      ensures used0 == old(used0) - if i == 0 then 1 else 0
    {
      hide Holds, Total, TableOk, EmptyBelow, LinksOf, Heads, Pow2;
      assert |entries - {entry.key}| == |entries| - 1 by { OneLess(entries, entry.key); }
      TakeOne(i, entry, d0, d1);
    }

    method TakeOne(i: int, entry: HashEntry, ghost d0: Chains, ghost d1: Chains)
      modifies `used0, `used1, `c0, `c1, `entries, `repr
      ensures used0 == (if i == 0 then old(used0) - 1 else old(used0))
      ensures used1 == if i == 0 then old(used1) else old(used1) - 1
      ensures c0 == d0 && c1 == d1 && entries == old(entries) - {entry.key} && repr == old(repr) - {entry}
    {
      if i == 0 { used0 := used0 - 1; } else { used1 := used1 - 1; }
      c0, c1, entries, repr := d0, d1, entries - {entry.key}, repr - {entry};
    }

    /** One turn of the loop of `ReHash`. */
    method MoveFirst(entry: HashEntry) returns (next: HashEntry?)
      requires Moving(entry)
      modifies `used0, `used1, `c0, `c1, rehashTable, repr`next, repr`prev
      ensures Moving(next) && |c0[idx]| == old(|c0[idx]|) - 1 && used0 + used1 == old(used0 + used1)
      ensures used0 == old(used0) - 1 && Swept() == old(Swept())
    {
      hide Mid, Total, TableOk, Slot, Dropped, Gained, Pushed;
      ghost var b1 := Slot(hash, entry.key, size1);
      next := entry.next;
      MoveStep(hash, entries, LinksOf(repr), Heads(table), Heads(rehashTable), c0, size0, c1, size1, idx, entry);
      var b := TargetBucket(entry);
      PushFront(rehashTable, b, entry, repr);
      CountMove(b, entry, next);
    }

    method CountMove(b: nat, entry: HashEntry, next: HashEntry?)
      requires Rehashing() && b < |c1| && c0[idx] != []
      requires used0 == Total(c0) && used1 == Total(c1) && |entries| == used0 + used1
      requires Total(Dropped(c0, idx)) == Total(c0) - 1 && Total(Gained(c1, b, entry)) == Total(c1) + 1
      requires Mid(hash, entries, LinksOf(repr), Heads(table), Heads(rehashTable), Dropped(c0, idx), size0,
                   Gained(c1, b, entry), size1, idx, next)
      modifies `used0, `used1, `c0, `c1
      ensures Moving(next) && |c0[idx]| == old(|c0[idx]|) - 1 && used0 + used1 == old(used0 + used1)
      ensures used0 == old(used0) - 1 && Swept() == old(Swept())
    {
      hide Mid, Total, TableOk, Slot, Gained, Pushed;
      used0 := used0 - 1;
      used1 := used1 + 1;
      c0, c1 := Dropped(c0, idx), Gained(c1, b, entry);
    }
  }

  lemma Counts(t: HashTable)
    requires t.Valid()
    ensures t.used0 == Total(t.c0) && t.used1 == Total(t.c1) && |t.entries| == t.used0 + t.used1
  {
  }

  /**
   What `Load` means: no table is ever fuller than one entry per bucket, and a rehash ends before its table is full.
   */
  lemma LoadFactor(t: HashTable)
    requires t.Valid()
    ensures t.idx == -1 ==> t.used0 <= Pow2(t.size0) && t.used1 == 0
    ensures t.idx != -1 ==> t.used0 + t.used1 <= Pow2(t.size0) + t.idx + 1 <= Pow2(t.size1)
  {
    if t.idx != -1 { Pow2Grows(t.size0, t.size1); }
  }

  // ---------------------------------------------------------------- whole runs

  datatype Op = Get(key: string) | Put(key: string, val: int) | Drop(key: string)

  datatype Reply = Missing | Value(val: int) | Added | Refused | Done

  /** The plain map a table of entries stands for. */
  ghost function ModelOf(entries: map<string, HashEntry>): (m: map<string, int>)
    reads entries.Values`val
    ensures m.Keys == entries.Keys && forall k :: k in entries ==> m[k] == entries[k].val
  {
    map k | k in entries :: entries[k].val
  }

  /** One operation on a plain map. */
  function Apply(m: map<string, int>, op: Op): (map<string, int>, Reply) {
    match op
    case Get(key) => (m, if key in m then Value(m[key]) else Missing)
    case Put(key, val) => if key in m then (m, Refused) else (m[key := val], Added)
    case Drop(key) => (m - {key}, Done)
  }

  function ApplyAll(m: map<string, int>, ops: seq<Op>): (map<string, int>, seq<Reply>) {
    if ops == [] then (m, [])
    else
      var (m1, rs) := ApplyAll(m, ops[..|ops| - 1]);
      var (m2, r) := Apply(m1, ops[|ops| - 1]);
      (m2, rs + [r])
  }

  method PerformGet(t: HashTable, key: string) returns (reply: Reply)
    requires t.Valid()
    modifies t`table, t`rehashTable, t`size0, t`size1, t`used0, t`used1, t`idx, t`c0, t`c1, t`entries, t`repr
    modifies t.table, t.rehashTable, t.repr`next, t.repr`prev
    ensures t.Valid()
    ensures t.table == old(t.table) || t.table == old(t.rehashTable) || fresh(t.table)
    ensures t.rehashTable == old(t.rehashTable) || t.rehashTable == null || fresh(t.rehashTable)
    ensures fresh(t.repr - old(t.repr)) && t.size0 >= old(t.size0)
    ensures old(t.idx) != -1 ==>
      t.size0 == old(t.size1) || (t.idx == old(t.idx) + 1 && t.size0 == old(t.size0) && t.size1 == old(t.size1))
    ensures (ModelOf(t.entries), reply) == Apply(old(ModelOf(t.entries)), Get(key))
  {
    hide HashTable.Valid, Pow2, Mask;
    ghost var m := ModelOf(t.entries);
    var e := t.FindByKey(key);
    reply := if e == null then Missing else Value(e.val);
    assert ModelOf(t.entries) == m;
  }

  method PerformPut(t: HashTable, key: string, val: int) returns (reply: Reply)
    requires t.Valid()
    modifies t`table, t`rehashTable, t`size0, t`size1, t`used0, t`used1, t`idx, t`c0, t`c1, t`entries, t`repr
    modifies t.table, t.rehashTable, t.repr`next, t.repr`prev
    ensures t.Valid()
    ensures t.table == old(t.table) || t.table == old(t.rehashTable) || fresh(t.table)
    ensures t.rehashTable == old(t.rehashTable) || t.rehashTable == null || fresh(t.rehashTable)
    ensures fresh(t.repr - old(t.repr)) && t.size0 >= old(t.size0)
    ensures old(t.idx) != -1 ==>
      t.size0 == old(t.size1) || (t.idx == old(t.idx) + 1 && t.size0 == old(t.size0) && t.size1 == old(t.size1))
    ensures (ModelOf(t.entries), reply) == Apply(old(ModelOf(t.entries)), Put(key, val))
  {
    hide HashTable.Valid, Pow2, Mask;
    ghost var m := ModelOf(t.entries);
    var e := t.Insert(key, val);
    reply := if e == null then Refused else Added;
    assert ModelOf(t.entries) == if key in m then m else m[key := val];
  }

  method PerformDrop(t: HashTable, key: string) returns (reply: Reply)
    requires t.Valid()
    modifies t`table, t`rehashTable, t`size0, t`size1, t`used0, t`used1, t`idx, t`c0, t`c1, t`entries, t`repr
    modifies t.table, t.rehashTable, t.repr`next, t.repr`prev
    ensures t.Valid()
    ensures t.table == old(t.table) || t.table == old(t.rehashTable) || fresh(t.table)
    ensures t.rehashTable == old(t.rehashTable) || t.rehashTable == null || fresh(t.rehashTable)
    ensures fresh(t.repr - old(t.repr)) && t.size0 >= old(t.size0)
    ensures old(t.idx) != -1 ==>
      t.size0 == old(t.size1) || (t.idx == old(t.idx) + 1 && t.size0 == old(t.size0) && t.size1 == old(t.size1))
    ensures (ModelOf(t.entries), reply) == Apply(old(ModelOf(t.entries)), Drop(key))
  {
    hide HashTable.Valid, Pow2, Mask;
    ghost var m := ModelOf(t.entries);
    t.Delete(key);
    reply := Done;
    assert ModelOf(t.entries) == m - {key};
  }

  /** One operation on the table. */
  method Perform(t: HashTable, op: Op) returns (reply: Reply)
    requires t.Valid()
    modifies t`table, t`rehashTable, t`size0, t`size1, t`used0, t`used1, t`idx, t`c0, t`c1, t`entries, t`repr
    modifies t.table, t.rehashTable, t.repr`next, t.repr`prev
    ensures t.Valid()
    ensures t.table == old(t.table) || t.table == old(t.rehashTable) || fresh(t.table)
    ensures t.rehashTable == old(t.rehashTable) || t.rehashTable == null || fresh(t.rehashTable)
    ensures fresh(t.repr - old(t.repr)) && t.size0 >= old(t.size0)
    ensures old(t.idx) != -1 ==>
      t.size0 == old(t.size1) || (t.idx == old(t.idx) + 1 && t.size0 == old(t.size0) && t.size1 == old(t.size1))
    ensures (ModelOf(t.entries), reply) == Apply(old(ModelOf(t.entries)), op)
  {
    hide *;
    match op {
      case Get(key) => reply := PerformGet(t, key);
      case Put(key, val) => reply := PerformPut(t, key, val);
      case Drop(key) => reply := PerformDrop(t, key);
    }
  }

  /**
   Any run of operations: the replies and the final contents are those of a plain map, the load bound holds throughout,
   and a rehash under way at the start is over after as many operations as its first table has buckets left.
   */
  method Run(t: HashTable, ops: seq<Op>) returns (replies: seq<Reply>)
    requires t.Valid()
    modifies t`table, t`rehashTable, t`size0, t`size1, t`used0, t`used1, t`idx, t`c0, t`c1, t`entries, t`repr
    modifies t.table, t.rehashTable, t.repr`next, t.repr`prev
    ensures t.Valid() && (ModelOf(t.entries), replies) == ApplyAll(old(ModelOf(t.entries)), ops)
    ensures old(t.idx) != -1 && |ops| >= Pow2(old(t.size0)) - old(t.idx) ==> t.size0 >= old(t.size1)
  {
    hide Pow2, Mask, HashTable.Content, HashTable.Linked, HashTable.Idle, HashTable.Load, Apply;
    replies := [];
    var i := 0;
    while i < |ops|
      invariant i <= |ops| && t.Valid()
      invariant (ModelOf(t.entries), replies) == ApplyAll(old(ModelOf(t.entries)), ops[..i])
      invariant t.table == null || t.table == old(t.table) || t.table == old(t.rehashTable) || fresh(t.table)
      invariant t.rehashTable == old(t.rehashTable) || t.rehashTable == null || fresh(t.rehashTable)
      invariant fresh(t.repr - old(t.repr))
      invariant old(t.idx) != -1 ==>
        t.size0 >= old(t.size1) || (t.idx == old(t.idx) + i && t.size0 == old(t.size0) && t.size1 == old(t.size1))
    {
      var reply := Perform(t, ops[i]);
      assert ops[..i + 1][..i] == ops[..i];
      replies := replies + [reply];
      i := i + 1;
    }
    assert ops[..i] == ops;
  }

  /**
   Deleting from a table without entries: the first call makes a table of sixteen buckets, the second starts a rehash,
   and every further call ends one rehash and starts the next into a table of twice the size, so the size has no bound.
   */
  method DeleteFromEmpty(hash: Hash, keys: seq<string>) returns (t: HashTable)
    ensures fresh(t) && t.Valid() && t.entries == map[]
    ensures |keys| == 1 ==> t.idx == -1 && t.size0 == 4
    ensures |keys| >= 2 ==> t.idx == 0 && t.size0 == |keys| + 2 && t.size1 == |keys| + 3
  {
    hide *;
    t := new HashTable(hash);
    for i := 0 to |keys|
      invariant fresh(t) && t.Valid() && t.entries == map[] && t.repr == {}
      invariant (t.table == null || fresh(t.table)) && (t.rehashTable == null || fresh(t.rehashTable))
      invariant if i < 2 then t.idx == -1 && t.size0 == 4 * i
                else t.idx == 0 && t.size0 == i + 2 && t.size1 == i + 3
    {
      Counts(t);
      t.Delete(keys[i]);
    }
  }

  /** The first entry of bucket `i` dropped. */
  ghost function Dropped(cs: Chains, i: nat): (r: Chains)
    requires i < |cs| && cs[i] != []
    ensures |r| == |cs| && r[i] == cs[i][1..] && forall b :: 0 <= b < |cs| && b != i ==> r[b] == cs[b]
  {
    cs[i := cs[i][1..]]
  }

  /** `e` put in front of bucket `b`. */
  ghost function Gained(cs: Chains, b: nat, e: HashEntry): (r: Chains)
    requires b < |cs|
    ensures |r| == |cs|
  {
    cs[b := [e] + cs[b]]
  }

  ghost predicate Mid(hash: Hash, entries: map<string, HashEntry>, links: Links, h0: seq<HashEntry?>,
                      h1: seq<HashEntry?>, c0: Chains, n0: nat, c1: Chains, n1: nat, i: int, entry: HashEntry?)
  {
    && 0 <= i < |c0| == Pow2(n0) && |c1| == Pow2(n1) && Holds(hash, entries, c0, n0, c1, n1)
    && entry == At(c0[i], 0) && NextOk(links, c0[i]) && TableOk(links, h0, c0, i) && TableOk(links, h1, c1, -1)
  }

  lemma MoveStep(hash: Hash, entries: map<string, HashEntry>, links: Links, h0: seq<HashEntry?>, h1: seq<HashEntry?>,
                 c0: Chains, n0: nat, c1: Chains, n1: nat, i: int, e: HashEntry)
    requires Mid(hash, entries, links, h0, h1, c0, n0, c1, n1, i, e)
    ensures 0 <= i < |c0| && c0[i] != [] && e in links && Slot(hash, e.key, n0) == i
    ensures var b := Slot(hash, e.key, n1);
      && b < |h1| == |c1| && h1[b] != e && (h1[b] != null ==> h1[b] in links)
      && Mid(hash, entries, Pushed(links, h1[b], e), h0, h1[b := e], Dropped(c0, i), n0, Gained(c1, b, e), n1, i,
             links[e].next)
      && Total(Dropped(c0, i)) == Total(c0) - 1 && Total(Gained(c1, b, e)) == Total(c1) + 1
  {
    hide Holds, NextOk, TableOk;
    var b := Slot(hash, e.key, n1);
    assert e == c0[i][0];
    MoveLinks(hash, entries, links, h0, h1, c0, n0, c1, n1, i);
    MoveHolds(hash, entries, c0, n0, c1, n1, i);
    TotalUpdate(c0, i, c0[i][1..]);
    TotalUpdate(c1, b, [e] + c1[b]);
  }

  lemma StartMoving(hash: Hash, entries: map<string, HashEntry>, links: Links, h0: seq<HashEntry?>, h1: seq<HashEntry?>,
                    c0: Chains, n0: nat, c1: Chains, n1: nat, i: int)
    requires 0 <= i < |c0| == Pow2(n0) && |c1| == Pow2(n1) && Holds(hash, entries, c0, n0, c1, n1)
    requires TableOk(links, h0, c0, -1) && TableOk(links, h1, c1, -1)
    ensures |h0| == |c0| && Mid(hash, entries, links, h0, h1, c0, n0, c1, n1, i, h0[i])
  {
    assert ChainOk(links, h0[i], c0[i]);
  }

  lemma NoneLeft(hash: Hash, entries: map<string, HashEntry>, links: Links, h0: seq<HashEntry?>, h1: seq<HashEntry?>,
                 c0: Chains, n0: nat, c1: Chains, n1: nat, i: int)
    requires Mid(hash, entries, links, h0, h1, c0, n0, c1, n1, i, null)
    ensures 0 <= i < |c0| && c0[i] == []
  {
  }

  lemma EndMoving(hash: Hash, entries: map<string, HashEntry>, links: Links, h0: seq<HashEntry?>, h1: seq<HashEntry?>,
                  c0: Chains, n0: nat, c1: Chains, n1: nat, i: int)
    requires Mid(hash, entries, links, h0, h1, c0, n0, c1, n1, i, null)
    ensures |h0| == |c0| && 0 <= i < |h0| && TableOk(links, h0[i := null], c0, -1)
    ensures Holds(hash, entries, c0, n0, c1, n1) && TableOk(links, h1, c1, -1) && TableOk(links, [], [], -1)
    ensures Total(c0) == 0 ==> Holds(hash, entries, c1, n1, [], 0) && Total([]) == 0
    ensures EmptyBelow(c0, i) ==> EmptyBelow(c0, i + 1) && (i + 1 == |c0| ==> Total(c0) == 0)
  {
    assert c0[i] == [];
    forall b | 0 <= b < |c0| ensures ChainOk(links, h0[i := null][b], c0[b]) {}
    TotalZero(c0);
    if Total(c0) == 0 { HoldsAlone(hash, entries, c0, n0, c1, n1); }
  }

  lemma HoldsAlone(hash: Hash, entries: map<string, HashEntry>, c0: Chains, n0: nat, c1: Chains, n1: nat)
    requires Holds(hash, entries, c0, n0, c1, n1) && |c0| == Pow2(n0) && forall b :: 0 <= b < |c0| ==> c0[b] == []
    ensures Holds(hash, entries, c1, n1, [], 0)
  {
    forall k | k in entries ensures InTable(hash, c1, n1, entries[k]) {
      assert !InTable(hash, c0, n0, entries[k]);
    }
  }

  ghost predicate KeyIn(key: string, c: Chain) {
    exists e :: e in c && e.key == key
  }

  lemma Present(hash: Hash, entries: map<string, HashEntry>, c0: Chains, n0: nat, c1: Chains, n1: nat, key: string)
    requires Holds(hash, entries, c0, n0, c1, n1) && |c0| == Pow2(n0) && key in entries
    ensures KeyIn(key, c0[Slot(hash, key, n0)]) || (|c1| == Pow2(n1) && KeyIn(key, c1[Slot(hash, key, n1)]))
  {
    assert InTable(hash, c0, n0, entries[key]) || InTable(hash, c1, n1, entries[key]);
  }

  lemma Found(hash: Hash, entries: map<string, HashEntry>, c0: Chains, n0: nat, c1: Chains, n1: nat, e: HashEntry)
    requires Holds(hash, entries, c0, n0, c1, n1)
    requires (exists b :: 0 <= b < |c0| && e in c0[b]) || (exists b :: 0 <= b < |c1| && e in c1[b])
    ensures e.key in entries && entries[e.key] == e
  {
  }

  lemma HollowTable(hash: Hash, entries: map<string, HashEntry>, links: Links, h: seq<HashEntry?>, c0: Chains, n0: nat,
                    len: nat)
    requires |h| == Pow2(len) && forall b :: 0 <= b < |h| ==> h[b] == null
    requires Holds(hash, entries, c0, n0, [], 0)
    ensures TableOk(links, h, Hollow(Pow2(len)), -1)
    ensures Holds(hash, entries, c0, n0, Hollow(Pow2(len)), len)
    ensures c0 == [] ==> Holds(hash, entries, Hollow(Pow2(len)), len, [], 0) && Total(c0) == 0
    ensures Total([]) == 0
  {
    var cs := Hollow(Pow2(len));
    forall b | 0 <= b < |cs| ensures ChainOk(links, h[b], cs[b]) {}
    forall k | k in entries
      ensures InTable(hash, c0, n0, entries[k]) && !InTable(hash, cs, len, entries[k])
    {
      assert !InTable(hash, [], 0, entries[k]);
    }
  }

  lemma NewEntry(es: set<HashEntry>, e: HashEntry)
    requires e !in es
    ensures LinksOf(es + {e}) == LinksOf(es)[e := Link(e.next, e.prev)]
  {
  }

  lemma ExtendTable(links: Links, heads: seq<HashEntry?>, cs: Chains, e: HashEntry, l: Link)
    requires TableOk(links, heads, cs, -1) && e !in links
    ensures TableOk(links[e := l], heads, cs, -1)
    ensures forall b :: 0 <= b < |cs| ==> e !in cs[b]
  {
    forall b | 0 <= b < |cs| ensures ChainOk(links[e := l], heads[b], cs[b]) && e !in cs[b] {
      var c := cs[b];
      assert ChainOk(links, heads[b], c);
      forall p | 0 <= p < |c| ensures c[p] in links && c[p] != e && links[c[p]] == Link(At(c, p + 1), At(c, p - 1)) {
        assert c[p] in links;
      }
    }
  }

  /** A new entry pushed in front of its bucket of the second table. */
  lemma InsertStep(hash: Hash, entries: map<string, HashEntry>, links: Links, h0: seq<HashEntry?>, c0: Chains, n0: nat,
                   h1: seq<HashEntry?>, c1: Chains, n1: nat, e: HashEntry)
    requires Holds(hash, entries, c0, n0, c1, n1) && |c1| == Pow2(n1) && e.key !in entries && e !in links
    requires TableOk(links, h0, c0, -1) && TableOk(links, h1, c1, -1)
    ensures var b := Slot(hash, e.key, n1);
      && |h1| == |c1| && h1[b] != e && (h1[b] != null ==> h1[b] in links)
      && var links' := Pushed(links[e := Link(e.next, e.prev)], h1[b], e);
         && TableOk(links', h0, c0, -1) && TableOk(links', h1[b := e], Gained(c1, b, e), -1)
         && Holds(hash, entries[e.key := e], c0, n0, Gained(c1, b, e), n1)
         && Total(Gained(c1, b, e)) == Total(c1) + 1
  {
    hide Total;
    var b, l := Slot(hash, e.key, n1), links[e := Link(e.next, e.prev)];
    assert ChainOk(links, h1[b], c1[b]);
    assert h1[b] != null ==> c1[b] != [] && c1[b][0] in links;
    ExtendTable(links, h0, c0, e, Link(e.next, e.prev));
    ExtendTable(links, h1, c1, e, Link(e.next, e.prev));
    HoldsSwap(hash, entries, c0, n0, c1, n1);
    forall p | 0 <= p < |c1[b]|
      ensures forall b' :: 0 <= b' < |c1| && b' != b ==> c1[b][p] !in c1[b']
      ensures forall b' :: 0 <= b' < |c0| ==> c1[b][p] !in c0[b']
    {
      Elsewhere(hash, entries, c1, n1, c0, n0, b, p);
    }
    PushTable(l, h1, c1, b, e);
    PushOtherTable(l, h0, c0, -1, h1[b], e);
    InsertHolds(hash, entries, c0, n0, c1, n1, e);
    TotalUpdate(c1, b, [e] + c1[b]);
  }

  lemma OneLess(m: map<string, HashEntry>, k: string)
    requires k in m
    ensures |m - {k}| == |m| - 1
  {
    assert (m - {k})[k := m[k]] == m;
  }

  /** Entry `p` of bucket `b` taken out. */
  ghost function Lost(cs: Chains, b: nat, p: nat): (r: Chains)
    requires b < |cs| && p < |cs[b]|
    ensures |r| == |cs| && forall i :: EmptyBelow(cs, i) ==> EmptyBelow(r, i)
  {
    cs[b := Without(cs[b], p)]
  }

  /** An entry unlinked from its bucket of the first table. */
  lemma DeleteStep(hash: Hash, entries: map<string, HashEntry>, links: Links, h0: seq<HashEntry?>, c0: Chains, n0: nat,
                   h1: seq<HashEntry?>, c1: Chains, n1: nat, b: nat, p: nat)
    requires Holds(hash, entries, c0, n0, c1, n1) && b < |c0| == Pow2(n0) && p < |c0[b]|
    requires TableOk(links, h0, c0, -1) && TableOk(links, h1, c1, -1)
    ensures |h0| == |c0|
    ensures var e, prev := c0[b][p], At(c0[b], p - 1);
      && e in links && (prev != null ==> prev in links && prev != e) && e.key in entries
      && (links[e].next != null ==> links[e].next in links && links[e].next != e)
      && var l, d := Unlinked(links, e, prev) - {e}, Lost(c0, b, p);
         && TableOk(l, if prev == null then h0[b := links[e].next] else h0, d, -1) && TableOk(l, h1, c1, -1)
         && Holds(hash, entries - {e.key}, d, n0, c1, n1) && Total(d) == Total(c0) - 1
  {
    hide Total;
    var e, prev := c0[b][p], At(c0[b], p - 1);
    DeletePointers(hash, entries, links, h0, c0, n0, h1, c1, n1, b, p);
    DeleteHolds(hash, entries, c0, n0, c1, n1, b, p);
    TotalUpdate(c0, b, Without(c0[b], p));
  }

  lemma DeletePointers(hash: Hash, entries: map<string, HashEntry>, links: Links, h0: seq<HashEntry?>, c0: Chains,
                       n0: nat,
                       h1: seq<HashEntry?>, c1: Chains, n1: nat, b: nat, p: nat)
    requires Holds(hash, entries, c0, n0, c1, n1) && b < |c0| == Pow2(n0) && p < |c0[b]|
    requires TableOk(links, h0, c0, -1) && TableOk(links, h1, c1, -1)
    ensures |h0| == |c0|
    ensures var e, prev := c0[b][p], At(c0[b], p - 1);
      && e in links && (prev != null ==> prev in links && prev != e)
      && (links[e].next != null ==> links[e].next in links && links[e].next != e)
      && var l, d := Unlinked(links, e, prev) - {e}, Lost(c0, b, p);
         && TableOk(l, if prev == null then h0[b := links[e].next] else h0, d, -1) && TableOk(l, h1, c1, -1)
  {
    hide Unlinked, Lost;
    var e, prev, d := c0[b][p], At(c0[b], p - 1), Lost(c0, b, p);
    forall q | 0 <= q < |c0[b]|
      ensures forall b' :: 0 <= b' < |c0| && b' != b ==> c0[b][q] !in c0[b']
      ensures forall b' :: 0 <= b' < |c1| ==> c0[b][q] !in c1[b']
    {
      Elsewhere(hash, entries, c0, n0, c1, n1, b, q);
    }
    UnlinkTable(links, h0, c0, b, p);
    var l, h := Unlinked(links, e, prev), if prev == null then h0[b := links[e].next] else h0;
    UnlinkOtherTable(links, h1, c1, c0[b], p);
    ForgetTable(l, h, d, e);
    ForgetTable(l, h1, c1, e);
  }

  lemma UnlinkTable(links: Links, heads: seq<HashEntry?>, cs: Chains, b: nat, p: nat)
    requires TableOk(links, heads, cs, -1) && NoRepeats(cs) && b < |cs| && p < |cs[b]|
    requires forall b', q :: 0 <= b' < |cs| && b' != b && 0 <= q < |cs[b]| ==> cs[b][q] !in cs[b']
    ensures var c := cs[b];
      && c[p] in links && (p > 0 ==> c[p - 1] in links && c[p - 1] != c[p])
      && links[c[p]].next == At(c, p + 1)
      && (links[c[p]].next != null ==> links[c[p]].next in links && links[c[p]].next != c[p])
      && TableOk(Unlinked(links, c[p], At(c, p - 1)), if p == 0 then heads[b := links[c[p]].next] else heads,
                 Lost(cs, b, p), -1)
    ensures forall b' :: 0 <= b' < |cs| ==> cs[b][p] !in Lost(cs, b, p)[b']
  {
    var c := cs[b];
    assert NoRepeat(c);
    assert ChainOk(links, heads[b], c);
    UnlinkChain(links, heads[b], c, p);
    var l := Unlinked(links, c[p], At(c, p - 1));
    forall b' | 0 <= b' < |cs| && b' != b ensures ChainOk(l, heads[b'], cs[b']) {
      UnlinkElsewhere(links, heads[b'], cs[b'], c[p], At(c, p - 1));
    }
  }

  lemma UnlinkOtherTable(links: Links, heads: seq<HashEntry?>, cs: Chains, c: Chain, p: nat)
    requires TableOk(links, heads, cs, -1) && p < |c| && forall b, q :: 0 <= b < |cs| && 0 <= q < |c| ==> c[q] !in cs[b]
    requires c[p] in links && (p > 0 ==> c[p - 1] in links)
    requires links[c[p]].next == At(c, p + 1) && (links[c[p]].next != null ==> links[c[p]].next in links)
    ensures TableOk(Unlinked(links, c[p], At(c, p - 1)), heads, cs, -1)
  {
    forall b | 0 <= b < |cs| ensures ChainOk(Unlinked(links, c[p], At(c, p - 1)), heads[b], cs[b]) {
      UnlinkElsewhere(links, heads[b], cs[b], c[p], At(c, p - 1));
    }
  }

  /** The links after one turn of the loop of `ReHash`. */
  lemma MoveLinks(hash: Hash, entries: map<string, HashEntry>, links: Links, h0: seq<HashEntry?>, h1: seq<HashEntry?>,
                  c0: Chains, n0: nat, c1: Chains, n1: nat, i: nat)
    requires Holds(hash, entries, c0, n0, c1, n1) && |c0| == Pow2(n0) && |c1| == Pow2(n1) && i < |c0| && c0[i] != []
    requires NextOk(links, c0[i]) && TableOk(links, h0, c0, i) && TableOk(links, h1, c1, -1)
    ensures c0[i][0] in links && links[c0[i][0]].next == At(c0[i], 1)
    ensures var e := c0[i][0]; var b := Slot(hash, e.key, n1);
      && Slot(hash, e.key, n0) == i
      && |h1| == |c1| && h1[b] != e && (h1[b] != null ==> h1[b] in links)
      && var links' := Pushed(links, h1[b], e);
         && NextOk(links', c0[i][1..]) && TableOk(links', h0, c0[i := c0[i][1..]], i)
         && TableOk(links', h1[b := e], c1[b := [e] + c1[b]], -1)
  {
    var e := c0[i][0];
    var b := Slot(hash, e.key, n1);
    Elsewhere(hash, entries, c0, n0, c1, n1, i, 0);
    forall p | 0 <= p < |c1[b]|
      ensures forall b' :: 0 <= b' < |c1| && b' != b ==> c1[b][p] !in c1[b']
      ensures forall b' :: 0 <= b' < |c0| ==> c1[b][p] !in c0[b']
    {
      HoldsSwap(hash, entries, c0, n0, c1, n1);
      Elsewhere(hash, entries, c1, n1, c0, n0, b, p);
    }
    assert ChainOk(links, h1[b], c1[b]);
    PushTable(links, h1, c1, b, e);
    PushOtherTable(links, h0, c0, i, h1[b], e);
    NextTail(links, c0[i]);
    PushNext(links, h1[b], e, c0[i][1..]);
  }

  lemma NextTail(links: Links, c: Chain)
    requires NextOk(links, c) && c != []
    ensures NextOk(links, c[1..]) && c[0] in links && links[c[0]].next == At(c, 1)
  {
    forall p | 0 <= p < |c[1..]| ensures c[1..][p] in links && links[c[1..][p]].next == At(c[1..], p + 1) {
      assert links[c[p + 1]].next == At(c, p + 2);
    }
    assert c[0] in links;
  }
}
