/**
 The iterator over the hash table: it runs through the buckets of the first table, then, during a rehash, of the second.

 `Order` lists the entries in the order in which it visits them, and `at` is the place of the current entry in it.
 */
module HashIterator {

  import opened HashTable

  ghost function Flat(cs: Chains): seq<HashEntry> {
    if cs == [] then [] else cs[0] + Flat(cs[1..])
  }

  /** The number of entries before bucket `b`. */
  ghost function Start(cs: Chains, b: nat): nat
    requires b <= |cs|
  {
    if b == 0 then 0 else |cs[0]| + Start(cs[1..], b - 1)
  }

  ghost function Order(c0: Chains, c1: Chains): seq<HashEntry> {
    Flat(c0) + Flat(c1)
  }

  /** Entry `n` of the order, or null. */
  ghost function EntryAt(c0: Chains, c1: Chains, n: int): HashEntry? {
    At(Order(c0, c1), n)
  }

  lemma {:induction false} StartNext(cs: Chains, b: nat)
    requires b < |cs|
    ensures Start(cs, b + 1) == Start(cs, b) + |cs[b]|
  {
    if b > 0 { StartNext(cs[1..], b - 1); }
  }

  lemma {:induction false} StartEnd(cs: Chains)
    ensures Start(cs, |cs|) == |Flat(cs)|
  {
    if cs != [] { StartEnd(cs[1..]); }
  }

  lemma {:induction false} FlatAt(cs: Chains, b: nat, p: nat)
    requires b < |cs| && p < |cs[b]|
    ensures Start(cs, b) + p < |Flat(cs)| && Flat(cs)[Start(cs, b) + p] == cs[b][p]
  {
    if b > 0 { FlatAt(cs[1..], b - 1, p); }
  }

  lemma {:induction false} FlatFind(cs: Chains, i: nat) returns (b: nat, p: nat)
    requires i < |Flat(cs)|
    ensures b < |cs| && p < |cs[b]| && i == Start(cs, b) + p && Flat(cs)[i] == cs[b][p]
  {
    if i < |cs[0]| {
      b, p := 0, i;
    } else {
      b, p := FlatFind(cs[1..], i - |cs[0]|);
      b := b + 1;
    }
  }

  /** The place in the order of entry `p` of bucket `b`. */
  ghost predicate Here(c0: Chains, c1: Chains, second: bool, b: nat, p: nat, n: int) {
    var cs := if second then c1 else c0;
    b < |cs| && p < |cs[b]| && n == (if second then |Flat(c0)| else 0) + Start(cs, b) + p
  }

  lemma HereInOrder(c0: Chains, c1: Chains, second: bool, b: nat, p: nat, n: int)
    requires Here(c0, c1, second, b, p, n)
    ensures 0 <= n < |Order(c0, c1)| && Order(c0, c1)[n] == (if second then c1 else c0)[b][p] == EntryAt(c0, c1, n)
  {
    FlatAt(if second then c1 else c0, b, p);
  }

  /** Every entry is in the order, exactly once, and nothing else is. */
  lemma OrderExact(hash: Hash, entries: map<string, HashEntry>, c0: Chains, n0: nat, c1: Chains, n1: nat)
    requires Holds(hash, entries, c0, n0, c1, n1)
    ensures var o := Order(c0, c1);
      && (forall i :: 0 <= i < |o| ==> o[i].key in entries && entries[o[i].key] == o[i])
      && (forall k :: k in entries ==> entries[k] in o)
      && forall i, j :: 0 <= i < j < |o| ==> o[i] != o[j]
  {
    var o := Order(c0, c1);
    forall i | 0 <= i < |o| ensures o[i].key in entries && entries[o[i].key] == o[i] {
      var second, b, p := Locate(c0, c1, i);
    }
    forall k | k in entries ensures entries[k] in o {
      EntryInOrder(hash, entries, c0, n0, c1, n1, k);
    }
    forall i, j | 0 <= i < j < |o| ensures o[i] != o[j] {
      OrderDistinct(hash, entries, c0, n0, c1, n1, i, j);
    }
  }

  lemma Locate(c0: Chains, c1: Chains, i: nat) returns (second: bool, b: nat, p: nat)
    requires i < |Order(c0, c1)|
    ensures Here(c0, c1, second, b, p, i) && Order(c0, c1)[i] == (if second then c1 else c0)[b][p]
    ensures second <==> i >= |Flat(c0)|
  {
    second := i >= |Flat(c0)|;
    if second {
      b, p := FlatFind(c1, i - |Flat(c0)|);
    } else {
      b, p := FlatFind(c0, i);
    }
  }

  lemma EntryInOrder(hash: Hash, entries: map<string, HashEntry>, c0: Chains, n0: nat, c1: Chains, n1: nat, k: string)
    requires Holds(hash, entries, c0, n0, c1, n1) && k in entries
    ensures entries[k] in Order(c0, c1)
  {
    var e := entries[k];
    if InTable(hash, c0, n0, e) {
      var p :| 0 <= p < |c0[Slot(hash, e.key, n0)]| && c0[Slot(hash, e.key, n0)][p] == e;
      FlatAt(c0, Slot(hash, e.key, n0), p);
    } else {
      var p :| 0 <= p < |c1[Slot(hash, e.key, n1)]| && c1[Slot(hash, e.key, n1)][p] == e;
      FlatAt(c1, Slot(hash, e.key, n1), p);
    }
  }

  lemma OrderDistinct(hash: Hash, entries: map<string, HashEntry>, c0: Chains, n0: nat, c1: Chains, n1: nat, i: nat,
                      j: nat)
    requires Holds(hash, entries, c0, n0, c1, n1) && i < j < |Order(c0, c1)|
    ensures Order(c0, c1)[i] != Order(c0, c1)[j]
  {
    hide Holds, Flat, Start, Order;
    var s, b, p := Locate(c0, c1, i);
    var s', b', p' := Locate(c0, c1, j);
    if s == s' {
      TableDistinct(hash, entries, c0, n0, c1, n1, s, b, p, b', p');
    } else {
      TablesApart(hash, entries, c0, n0, c1, n1, b, p, b', p');
    }
  }

  lemma TableDistinct(hash: Hash, entries: map<string, HashEntry>, c0: Chains, n0: nat, c1: Chains, n1: nat, s: bool,
                      b: nat, p: nat, b': nat, p': nat)
    requires Holds(hash, entries, c0, n0, c1, n1)
    requires var cs := if s then c1 else c0;
      b < |cs| && p < |cs[b]| && b' < |cs| && p' < |cs[b']| && (b != b' || p != p')
    ensures var cs := if s then c1 else c0; cs[b][p] != cs[b'][p']
  {
    assert NoRepeat((if s then c1 else c0)[b]);
  }

  lemma TablesApart(hash: Hash, entries: map<string, HashEntry>, c0: Chains, n0: nat, c1: Chains, n1: nat,
                    b: nat, p: nat, b': nat, p': nat)
    requires Holds(hash, entries, c0, n0, c1, n1)
    requires b < |c0| && p < |c0[b]| && b' < |c1| && p' < |c1[b']|
    ensures c0[b][p] != c1[b'][p']
  {
    Elsewhere(hash, entries, c0, n0, c1, n1, b, p);
  }

  // ---------------------------------------------------------------- the search for the next entry

  /** Entry `n` of the order is `cur`, or, if that is null, the first one after bucket `b`. */
  ghost predicate Seek(c0: Chains, c1: Chains, second: bool, b: nat, p: nat, n: nat, cur: HashEntry?) {
    var cs := if second then c1 else c0;
    && b < |cs|
    && if cur != null then Here(c0, c1, second, b, p, n) && cur == cs[b][p]
       else n == (if second then |Flat(c0)| else 0) + Start(cs, b + 1)
  }

  lemma SeekNext(c0: Chains, c1: Chains, second: bool, b: nat, p: nat, n: nat)
    requires Here(c0, c1, second, b, p, n)
    ensures Seek(c0, c1, second, b, p + 1, n + 1, At((if second then c1 else c0)[b], p + 1))
  {
    StartNext(if second then c1 else c0, b);
  }

  lemma SeekBucket(c0: Chains, c1: Chains, second: bool, b: nat, p: nat, n: nat)
    requires Seek(c0, c1, second, b, p, n, null) && b + 1 < |if second then c1 else c0|
    ensures Seek(c0, c1, second, b + 1, 0, n, At((if second then c1 else c0)[b + 1], 0))
  {
    StartNext(if second then c1 else c0, b + 1);
  }

  lemma SeekTable(c0: Chains, c1: Chains, b: nat, p: nat, n: nat)
    requires Seek(c0, c1, false, b, p, n, null) && b + 1 == |c0| && c1 != []
    ensures Seek(c0, c1, true, 0, 0, n, At(c1[0], 0))
  {
    StartEnd(c0);
    StartNext(c1, 0);
  }

  lemma SeekFound(c0: Chains, c1: Chains, second: bool, b: nat, p: nat, n: nat, cur: HashEntry)
    requires Seek(c0, c1, second, b, p, n, cur)
    ensures Here(c0, c1, second, b, p, n) && cur == (if second then c1 else c0)[b][p]
  {
  }

  lemma InBucket(c0: Chains, c1: Chains, second: bool, b: nat, p: nat, n: int)
    requires Here(c0, c1, second, b, p, n)
    ensures var cs := if second then c1 else c0; b < |cs| && p < |cs[b]|
  {
  }

  /** The pointers of an entry lead to its neighbours in the bucket. */
  lemma EntryLink(links: Links, heads: seq<HashEntry?>, cs: Chains, b: nat, p: nat)
    requires TableOk(links, heads, cs, -1) && b < |cs| && p < |cs[b]|
    ensures cs[b][p] in links && links[cs[b][p]] == Link(At(cs[b], p + 1), At(cs[b], p - 1))
  {
    assert ChainOk(links, heads[b], cs[b]);
    assert cs[b][p] in links;
  }

  lemma SeekEnd(c0: Chains, c1: Chains, second: bool, b: nat, p: nat, n: nat)
    requires Seek(c0, c1, second, b, p, n, null) && b + 1 == |if second then c1 else c0| && (second || c1 == [])
    ensures n == |Order(c0, c1)| && EntryAt(c0, c1, n) == null
  {
    StartEnd(if second then c1 else c0);
  }

  lemma HereBefore(c0: Chains, c1: Chains, second: bool, b: nat, p: nat, n: int)
    requires Here(c0, c1, second, b, p, n) && p > 0
    ensures Here(c0, c1, second, b, p - 1, n - 1)
  {
  }

  /** Entry `n` of the order comes first in bucket `b` or after it. */
  ghost predicate BucketAt(c0: Chains, c1: Chains, second: bool, b: nat, n: nat) {
    var cs := if second then c1 else c0;
    b < |cs| && n == (if second then |Flat(c0)| else 0) + Start(cs, b)
  }

  lemma HereFirst(c0: Chains, c1: Chains, second: bool, b: nat, p: nat, n: int)
    requires Here(c0, c1, second, b, p, n) && At((if second then c1 else c0)[b], p - 1) == null
    ensures n >= 0 && BucketAt(c0, c1, second, b, n)
  {
  }

  lemma NoneBefore(c0: Chains, c1: Chains, n: nat)
    requires BucketAt(c0, c1, false, 0, n)
    ensures EntryAt(c0, c1, n - 1) == null
  {
  }

  /** Entry `n - 1` of the order is the last of bucket `b`, which starts with `cur`, or comes before the bucket. */
  ghost predicate Back(c0: Chains, c1: Chains, second: bool, b: nat, n: nat, cur: HashEntry?) {
    var cs := if second then c1 else c0;
    && b < |cs| && cur == At(cs[b], 0)
    && n == (if second then |Flat(c0)| else 0) + Start(cs, b + 1)
  }

  lemma BackBucket(c0: Chains, c1: Chains, second: bool, b: nat, n: nat)
    requires BucketAt(c0, c1, second, b, n) && b > 0
    ensures Back(c0, c1, second, b - 1, n, At((if second then c1 else c0)[b - 1], 0))
  {
  }

  lemma BackTable(c0: Chains, c1: Chains, n: nat)
    requires |c0| > 0 && BucketAt(c0, c1, true, 0, n)
    ensures Back(c0, c1, false, |c0| - 1, n, At(c0[|c0| - 1], 0))
  {
    StartEnd(c0);
  }

  lemma BackStart(c0: Chains, c1: Chains, second: bool, b: nat, n: nat, cur: HashEntry?)
    requires Back(c0, c1, second, b, n, cur)
    ensures var cs := if second then c1 else c0;
      if cur == null then BucketAt(c0, c1, second, b, n)
      else |cs[b]| > 0 && Here(c0, c1, second, b, |cs[b]| - 1, n - 1)
  {
    StartNext(if second then c1 else c0, b);
  }

  // ---------------------------------------------------------------- the iterator

  lemma {:induction false} FlatTotal(cs: Chains)
    ensures |Flat(cs)| == Total(cs)
  {
    if cs != [] { FlatTotal(cs[1..]); }
  }

  lemma Sizes(c0: Chains, c1: Chains)
    ensures Total(c0) + Total(c1) == 0 ==> EntryAt(c0, c1, 0) == null
  {
    FlatTotal(c0);
    FlatTotal(c1);
  }

  lemma TablesThere(t: HashTable)
    requires t.Valid() && 0 < t.used0 + t.used1
    ensures t.size0 > 0 && t.table != null && |t.c0| == Pow2(t.size0) == t.table.Length
    ensures forall b :: 0 <= b < |t.c0| ==> t.table[b] == At(t.c0[b], 0)
    ensures t.idx != -1 ==> t.rehashTable != null && t.table.Length < Pow2(t.size1)
  {
    if t.idx != -1 { Pow2Grows(t.size0, t.size1); }
    forall b | 0 <= b < |t.c0| ensures t.table[b] == At(t.c0[b], 0) {
      assert ChainOk(LinksOf(t.repr), Heads(t.table)[b], t.c0[b]);
    }
  }

  lemma SeekFirst(c0: Chains, c1: Chains)
    requires c0 != []
    ensures Seek(c0, c1, false, 0, 0, 0, At(c0[0], 0))
  {
    StartNext(c0, 0);
  }

  lemma SeekEmpty(c0: Chains, c1: Chains, b: nat)
    requires Seek(c0, c1, false, b, 0, 0, null) && b + 1 == |c0|
    ensures Total(c0) == 0
  {
    StartEnd(c0);
    FlatTotal(c0);
  }

  lemma AllEmpty(cs: Chains, b: nat)
    requires b < |cs|
    ensures Total(cs) == 0 ==> cs[b] == []
  {
    TotalZero(cs);
  }

  class HashIterator {
    const t: HashTable
    var tab: array?<HashEntry?>
    var curBucket: nat
    var cur: HashEntry?
    ghost var second: bool
    ghost var p: nat
    ghost var at: int

    constructor (t: HashTable)
      ensures this.t == t && cur == null
    {
      this.t := t;
      tab, curBucket, cur := null, 0, null;
    }

    /** The current entry, if any, is entry `at` of the order. */
    ghost predicate OnEntry()
      reads this, t
    {
      && Here(t.c0, t.c1, second, curBucket, p, at) && cur == (if second then t.c1 else t.c0)[curBucket][p]
      && (second ==> t.idx != -1) && tab == if second then t.rehashTable else t.table
    }

    ghost predicate Valid()
      reads this, t, t.table, t.rehashTable, t.repr`next, t.repr`prev
    {
      t.Valid() && (cur != null ==> OnEntry())
    }

    /**
     Goes to the first entry. During a rehash, once the first table is empty, the search for it goes on in the first
     table, under the bounds of the second, and leaves the table: `ok` is false.
     */
    method MReset() returns (ok: bool)
      requires t.Valid()
      modifies this`tab, this`curBucket, this`cur, this`second, this`p, this`at
      ensures ok <==> !(t.idx != -1 && t.used0 == 0 && 0 < t.used1)
      ensures ok ==> Valid() && at == 0 && cur == EntryAt(t.c0, t.c1, 0)
    {
      hide HashTable.Valid, Here, Order, Pow2, EntryAt;
      var ta, b, c;
      ok, ta, b, c := First();
      if ok {
        tab, curBucket, cur, second, p, at := ta, b, c, false, 0, 0;
      }
    }

    method First() returns (ok: bool, ta: array?<HashEntry?>, b: nat, c: HashEntry?)
      requires t.Valid()
      ensures ok <==> !(t.idx != -1 && t.used0 == 0 && 0 < t.used1)
      ensures ok && c != null ==> ta == t.table && Here(t.c0, t.c1, false, b, 0, 0) && c == t.c0[b][0]
      ensures ok ==> c == EntryAt(t.c0, t.c1, 0)
    {
      hide Holds, Total, Seek, Flat, Order, LinksOf, EmptyBelow, EntryAt, Here;
      ok, b, c := true, 0, null;
      Sizes(t.c0, t.c1);
      if t.used0 + t.used1 <= 0 {
        ta := null;
        return;
      }
      ta := t.table;
      TablesThere(t);
      c := t.table[0];
      var maxSize := Pow2(t.size0);
      SeekFirst(t.c0, t.c1);
      ghost var switched := false;
      while c == null
        invariant b < |t.c0| == t.table.Length
        invariant !switched ==> ta == t.table && maxSize == Pow2(t.size0) && Seek(t.c0, t.c1, false, b, 0, 0, c)
        invariant switched ==> c == null && maxSize == Pow2(t.size1) && t.idx != -1 && t.used0 == 0
        decreases !switched, |t.c0| - b, c == null
      {
        if b < maxSize - 1 {
          if !switched { SeekBucket(t.c0, t.c1, false, b, 0, 0); }
          b := b + 1;
          if b >= t.table.Length {
            return false, null, 0, null;
          }
          c := t.table[b];
          if switched { AllEmpty(t.c0, b); }
          continue;
        }
        if t.idx != -1 {
          SeekEmpty(t.c0, t.c1, b);
          ta := t.rehashTable;
          b := 0;
          c := t.table[0];
          maxSize := Pow2(t.size1);
          switched := true;
          AllEmpty(t.c0, 0);
          continue;
        }
        SeekEnd(t.c0, t.c1, false, b, 0, 0);
        return;
      }
      SeekFound(t.c0, t.c1, false, b, 0, 0, c);
      InBucket(t.c0, t.c1, false, b, 0, 0);
      AllEmpty(t.c0, b);
      HereInOrder(t.c0, t.c1, false, b, 0, 0);
    }

    /** The entry after the current one; null after the last. */
    method Next()
      requires Valid()
      modifies this`tab, this`curBucket, this`cur, this`second, this`p, this`at
      ensures Valid()
      ensures old(cur) == null ==> cur == null
      ensures old(cur) != null ==> at == old(at) + 1 && cur == EntryAt(t.c0, t.c1, at)
    {
      hide HashTable.Valid, Here, Order, Pow2, EntryAt;
      if cur == null {
        return;
      }
      assert at >= 0 by { HereInOrder(t.c0, t.c1, second, curBucket, p, at); }
      var ta, b, c, s, q := NextFrom(tab, curBucket, cur, second, p, at);
      tab, curBucket, cur, second, p, at := ta, b, c, s, q, at + 1;
    }

    method NextFrom(tab0: array?<HashEntry?>, b0: nat, cur0: HashEntry, ghost s0: bool, ghost p0: nat, ghost n: nat)
      returns (ta: array?<HashEntry?>, b: nat, c: HashEntry?, ghost s: bool, ghost q: nat)
      requires t.Valid() && Here(t.c0, t.c1, s0, b0, p0, n) && cur0 == (if s0 then t.c1 else t.c0)[b0][p0]
      requires (s0 ==> t.idx != -1) && tab0 == if s0 then t.rehashTable else t.table
      ensures c != null ==> Here(t.c0, t.c1, s, b, q, n + 1) && c == (if s then t.c1 else t.c0)[b][q]
      ensures (s ==> t.idx != -1) && ta == if s then t.rehashTable else t.table
      ensures c == EntryAt(t.c0, t.c1, n + 1)
    {
      hide Holds, Total, Here, Seek, Flat, Order, LinksOf, Pow2, EmptyBelow, EntryAt;
      InBucket(t.c0, t.c1, s0, b0, p0, n);
      EntryLink(LinksOf(t.repr), Heads(tab0), if s0 then t.c1 else t.c0, b0, p0);
      ta, b, s, q := tab0, b0, s0, p0 + 1;
      c := cur0.next;
      ghost var m := n + 1;
      SeekNext(t.c0, t.c1, s, b, p0, n);
      while c == null
        invariant b < |if s then t.c1 else t.c0| && Seek(t.c0, t.c1, s, b, q, m, c)
        invariant (s ==> t.idx != -1) && ta == if s then t.rehashTable else t.table
        decreases !s, (if s then |t.c1| else |t.c0|) - b, c == null
      {
        var tableIndex := if ta == t.table then 0 else 1;
        var maxSize := Pow2(if tableIndex == 0 then t.size0 else t.size1);
        if b < maxSize - 1 {
          SeekBucket(t.c0, t.c1, s, b, q, m);
          b, q := b + 1, 0;
          c := ta[b];
          continue;
        }
        if tableIndex == 0 && t.idx != -1 {
          SeekTable(t.c0, t.c1, b, q, m);
          ta, s, b, q := t.rehashTable, true, 0, 0;
          c := ta[0];
          continue;
        }
        SeekEnd(t.c0, t.c1, s, b, q, m);
        return;
      }
      SeekFound(t.c0, t.c1, s, b, q, m, c);
      HereInOrder(t.c0, t.c1, s, b, q, m);
    }

    /** The entry before the current one; null before the first. */
    method Prev()
      requires Valid()
      modifies this`tab, this`curBucket, this`cur, this`second, this`p, this`at
      ensures Valid()
      ensures old(cur) == null ==> cur == null
      ensures old(cur) != null ==> at == old(at) - 1 && cur == EntryAt(t.c0, t.c1, at)
    {
      hide HashTable.Valid, Here, Order, Pow2, EntryAt;
      if cur == null {
        return;
      }
      assert at >= 0 by { HereInOrder(t.c0, t.c1, second, curBucket, p, at); }
      var ta, b, c, s, q := PrevFrom(tab, curBucket, cur, second, p, at);
      tab, curBucket, cur, second, p, at := ta, b, c, s, q, at - 1;
    }

    method PrevFrom(tab0: array?<HashEntry?>, b0: nat, cur0: HashEntry, ghost s0: bool, ghost p0: nat, ghost n: nat)
      returns (ta: array?<HashEntry?>, b: nat, c: HashEntry?, ghost s: bool, ghost q: nat)
      requires t.Valid() && Here(t.c0, t.c1, s0, b0, p0, n) && cur0 == (if s0 then t.c1 else t.c0)[b0][p0]
      requires (s0 ==> t.idx != -1) && tab0 == if s0 then t.rehashTable else t.table
      ensures c != null ==> Here(t.c0, t.c1, s, b, q, n - 1) && c == (if s then t.c1 else t.c0)[b][q]
      ensures (s ==> t.idx != -1) && ta == if s then t.rehashTable else t.table
      ensures c == EntryAt(t.c0, t.c1, n - 1)
    {
      hide Holds, Total, Here, Back, Flat, Order, LinksOf, Pow2, EmptyBelow, EntryAt;
      InBucket(t.c0, t.c1, s0, b0, p0, n);
      EntryLink(LinksOf(t.repr), Heads(tab0), if s0 then t.c1 else t.c0, b0, p0);
      ta, b, s, q := tab0, b0, s0, 0;
      c := cur0.prev;
      if c != null {
        q := p0 - 1;
        HereBefore(t.c0, t.c1, s, b, p0, n);
        HereInOrder(t.c0, t.c1, s, b, q, n - 1);
        return;
      }
      HereFirst(t.c0, t.c1, s, b, p0, n);
      while true
        invariant c == null && b < (if s then |t.c1| else |t.c0|) && BucketAt(t.c0, t.c1, s, b, n)
        invariant (s ==> t.idx != -1) && ta == if s then t.rehashTable else t.table
        decreases s, b
      {
        if b > 0 {
          BackBucket(t.c0, t.c1, s, b, n);
          b := b - 1;
          c := ta[b];
        } else if ta == t.table {
          NoneBefore(t.c0, t.c1, n);
          return;
        } else {
          BackTable(t.c0, t.c1, n);
          ta, s := t.table, false;
          b := Pow2(t.size0) - 1;
          c := ta[b];
        }
        BackStart(t.c0, t.c1, s, b, n, c);
        if c != null {
          break;
        }
      }
      c, q := Last(c, if s then t.c1 else t.c0, b, ta);
      HereInOrder(t.c0, t.c1, s, b, q, n - 1);
    }

    /** The walk to the end of a bucket. */
    method Last(head: HashEntry, ghost cs: Chains, ghost b: nat, ghost ta: array?<HashEntry?>)
      returns (c: HashEntry, ghost q: nat)
      requires TableOk(LinksOf(t.repr), Heads(ta), cs, -1) && b < |cs| && head == At(cs[b], 0)
      ensures |cs[b]| > 0 && q == |cs[b]| - 1 && c == cs[b][|cs[b]| - 1]
    {
      c, q := head, 0;
      EntryLink(LinksOf(t.repr), Heads(ta), cs, b, q);
      while c.next != null
        invariant q < |cs[b]| && c == cs[b][q] && c.next == At(cs[b], q + 1)
        decreases |cs[b]| - q
      {
        c, q := c.next, q + 1;
        EntryLink(LinksOf(t.repr), Heads(ta), cs, b, q);
      }
    }
  }

  /** A whole round: it meets every entry of the table exactly once, in the order of the table. */
  method VisitAll(it: HashIterator) returns (ok: bool, seen: seq<HashEntry>)
    requires it.t.Valid()
    modifies it`tab, it`curBucket, it`cur, it`second, it`p, it`at
    ensures ok <==> !(it.t.idx != -1 && it.t.used0 == 0 && 0 < it.t.used1)
    ensures ok ==> seen == Order(it.t.c0, it.t.c1)
    ensures ok ==> forall k :: k in it.t.entries ==> it.t.entries[k] in seen
    ensures ok ==> forall i :: 0 <= i < |seen| ==> seen[i].key in it.t.entries && it.t.entries[seen[i].key] == seen[i]
    ensures ok ==> forall i, j :: 0 <= i < j < |seen| ==> seen[i] != seen[j]
  {
    hide HashTable.Valid, HashIterator.OnEntry, Order, Pow2, Here, Holds;
    seen := [];
    ok := it.MReset();
    if !ok {
      return;
    }
    ghost var order := Order(it.t.c0, it.t.c1);
    while it.cur != null
      invariant it.Valid() && it.at == |seen| <= |order| && seen == order[..|seen|] && it.cur == At(order, it.at)
      decreases |order| - |seen|
    {
      seen := seen + [it.cur];
      it.Next();
    }
    ExactIn(it.t);
  }

  lemma ExactIn(t: HashTable)
    requires t.Valid()
    ensures var o := Order(t.c0, t.c1);
      && (forall i :: 0 <= i < |o| ==> o[i].key in t.entries && t.entries[o[i].key] == o[i])
      && (forall k :: k in t.entries ==> t.entries[k] in o)
      && forall i, j :: 0 <= i < j < |o| ==> o[i] != o[j]
  {
    OrderExact(t.hash, t.entries, t.c0, t.size0, t.c1, t.size1);
  }

  /** One step forward and one back, when there is an entry to step to, and the same in the other direction. */
  method ThereAndBack(it: HashIterator, forward: bool) returns (moved: bool)
    requires it.Valid() && it.cur != null
    modifies it`tab, it`curBucket, it`cur, it`second, it`p, it`at
    ensures it.Valid() && (moved ==> it.cur == old(it.cur))
    ensures moved <==> if forward then old(it.at) + 1 < |Order(it.t.c0, it.t.c1)| else old(it.at) > 0
  {
    hide HashTable.Valid, Order, Pow2, Here;
    HereInOrder(it.t.c0, it.t.c1, it.second, it.curBucket, it.p, it.at);
    if forward { it.Next(); } else { it.Prev(); }
    moved := it.cur != null;
    if moved {
      if forward { it.Prev(); } else { it.Next(); }
    }
  }

  /** If there is only one key, only its bucket holds anything. */
  lemma OnlyBucket(hash: Hash, entries: map<string, HashEntry>, cs: Chains, n: nat, key: string, b: nat)
    requires Hosts(hash, entries, cs, n) && entries.Keys == {key} && b < |cs| && cs[b] != []
    ensures Slot(hash, key, n) == b
  {
    assert cs[b][0].key in entries;
  }

  /** `e` is alone in a table of sixteen buckets, and not in the first two. */
  ghost predicate Lone(hash: Hash, cs: Chains, e: HashEntry) {
    |cs| == 16 && cs[0] == [] && cs[1] == [] && Total(cs) == 1 && InTable(hash, cs, 4, e)
  }

  lemma OneEntry(t: HashTable, a: string)
    requires t.Valid() && t.idx == -1 && t.size0 == 4 && t.entries.Keys == {a} && Slot(t.hash, a, 4) >= 2
    ensures Lone(t.hash, t.c0, t.entries[a]) && !t.GoesOn() && t.Newest() == 4
    ensures 2 * (t.used0 + t.used1) <= Pow2(t.Newest())
    ensures t.table != null && t.rehashTable == null
  {
    assert |t.entries.Keys| == 1 && Pow2(4) == 16;
    assert !InTable(t.hash, t.c1, t.size1, t.entries[a]);
    forall b | 0 <= b < 2 ensures t.c0[b] == [] {
      if t.c0[b] != [] { OnlyBucket(t.hash, t.entries, t.c0, 4, a, b); }
    }
  }

  /** A rehash goes on over an empty bucket, and takes nothing from the first table. */
  lemma EmptyBucket(t: HashTable, a: string)
    requires t.Valid() && 0 <= t.idx < 2 && a in t.entries && Lone(t.hash, t.c0, t.entries[a])
    ensures t.GoesOn() && t.Swept() == t.c0 && Held(t.hash, t.entries, t.Swept(), 4, a) == 1 == Total(t.Swept())
    ensures t.table != null && t.rehashTable != null
  {
  }

  method OneInserted(hash: Hash, a: string) returns (t: HashTable)
    requires Slot(hash, a, 4) >= 2
    ensures fresh(t) && fresh(t.repr) && fresh(t.table) && t.rehashTable == null && t.Valid() && t.hash == hash
    ensures t.idx == -1 && t.size0 == 4 && t.entries.Keys == {a} && Lone(hash, t.c0, t.entries[a])
    ensures !t.GoesOn() && t.Newest() == 4 && 2 * (t.used0 + t.used1) <= Pow2(t.Newest())
  {
    hide *;
    t := new HashTable(hash);
    var e := t.Insert(a, 0);
    OneEntry(t, a);
  }

  method RehashStarted(hash: Hash, a: string, absent: string) returns (t: HashTable)
    requires Slot(hash, a, 4) >= 2 && absent != a
    ensures fresh(t) && fresh(t.repr) && fresh(t.table) && fresh(t.rehashTable) && t.Valid() && t.hash == hash
    ensures t.idx == 0 && t.size0 == 4 && t.entries.Keys == {a} && Lone(hash, t.c0, t.entries[a])
  {
    hide *;
    t := OneInserted(hash, a);
    t.Delete(absent);
    EmptyBucket(t, a);
  }

  method SecondInserted(hash: Hash, a: string, d: string, absent: string) returns (t: HashTable)
    requires Slot(hash, a, 4) >= 2 && d != a && absent != a
    ensures fresh(t) && fresh(t.repr) && fresh(t.table) && fresh(t.rehashTable) && t.Valid() && t.hash == hash
    ensures t.idx == 1 && t.size0 == 4 && t.entries.Keys == {a, d} && Lone(hash, t.c0, t.entries[a])
  {
    hide *;
    t := RehashStarted(hash, a, absent);
    EmptyBucket(t, a);
    var e := t.Insert(d, 0);
    EmptyBucket(t, a);
  }

  /**
   Four calls after which `MReset` leaves the table, for any hash that puts some key `a` outside the first two of
   sixteen buckets: the deletion of an absent key starts a rehash, an insertion puts `d` into the new table, and the
   deletion of `a` empties the old one before the cursor has reached its bucket.
   */
  method Stranded(hash: Hash, a: string, d: string, absent: string) returns (it: HashIterator, ok: bool)
    requires Slot(hash, a, 4) >= 2 && d != a && absent != a
    ensures fresh(it) && fresh(it.t) && it.t.Valid() && it.t.entries.Keys == {d} && !ok
    ensures it.t.idx == 2 && it.t.used0 == 0 && it.t.used1 == 1
  {
    hide *;
    var t := SecondInserted(hash, a, d, absent);
    EmptyBucket(t, a);
    t.Delete(a);
    Counts(t);
    assert |t.entries.Keys| == 1;
    it := new HashIterator(t);
    ok := it.MReset();
  }
}
