/** The archive format byte by byte: where numbers lie in an encoding, and what a reader makes of any tag. */
module WireFormat {

  import opened Bytes
  import opened Serializer

  /** `s` is the number `n`, least significant byte first. */
  ghost predicate Number(s: seq<byte>, n: nat) {
    forall i :: 0 <= i < |s| ==> s[i] == n / Pow256(i) % 256
  }

  lemma LeNumber(n: nat, w: nat)
    ensures Number(Le(n, w), n)
  {
    forall i | 0 <= i < w ensures Le(n, w)[i] == n / Pow256(i) % 256 {
      LeDigits(n, w, i);
    }
  }

  /** The fields of a tuple, in order. */
  function Fields(vs: Vals): seq<Val> {
    match vs
    case NoVal => []
    case MoreVal(v, rest) => [v] + Fields(rest)
  }

  function FieldTypes(ts: Tys): seq<Ty> {
    match ts
    case NoTy => []
    case MoreTy(t, rest) => [t] + FieldTypes(rest)
  }

  lemma {:induction false} LengthCounts(vs: Vals)
    ensures Length(vs) == |Fields(vs)|
  {
    if vs.MoreVal? { LengthCounts(vs.tail); }
  }

  lemma {:induction false} CountCounts(ts: Tys)
    ensures Count(ts) == |FieldTypes(ts)|
  {
    if ts.MoreTy? { CountCounts(ts.tail); }
  }

  /** Eight bytes with `n` and a tail. */
  ghost predicate Headed(b: seq<byte>, n: nat, tail: seq<byte>) {
    |b| >= 8 && Number(b[..8], n) && b[8..] == tail
  }

  lemma Heading(n: nat, tail: seq<byte>)
    ensures Headed(Le(n, 8) + tail, n, tail)
  {
    LeNumber(n, 8);
    assert (Le(n, 8) + tail)[..8] == Le(n, 8);
  }

  lemma SmallTags()
    ensures Le(0, 2) == [0, 0] && Le(1, 2) == [1, 0]
  {
    assert Le(0, 1) == [0] && Le(0, 0) == [];
  }

  /**
   The layout of every kind of value. Lengths, counts and object numbers take eight bytes, the tag of a unique pointer
   two; the number of a new object has its top bit set.
   */
  lemma Layout(heap: Heap, v: Val, table: Table)
    requires Closed(heap) && RefsIn(v, heap.Keys) && table.cur + 1 < 0x8000_0000_0000_0000
    ensures var b := Write(heap, v, table).bytes;
      match v
      case Word(image) => b == image
      case Text(chars) => Headed(b, |chars|, chars)
      case Vector(count, raw) => Headed(b, count, if count == 0 then [] else raw)
      case Tuple(vs) => Headed(b, |Fields(vs)|, WriteAll(heap, vs, table).bytes)
      case Struct(vs) => b == WriteAll(heap, vs, table).bytes
      case Absent => b == [0, 0]
      case Present(w) => b == [1, 0] + Write(heap, w, table).bytes
      case Ref(a) =>
        if a == 0 then Headed(b, 0, [])
        else if a in table.ids then Headed(b, table.ids[a], [])
        else
          var id := table.cur + 1;
          Headed(b, 0x8000_0000_0000_0000 + id, Write(heap, heap[a], Table(table.ids[a := id], id)).bytes)
  {
    SmallTags();
    match v
    case Text(chars) => Heading(|chars|, chars);
    case Vector(count, raw) => Heading(count, if count == 0 then [] else raw);
    case Tuple(vs) =>
      LengthCounts(vs);
      Heading(Length(vs), WriteAll(heap, vs, table).bytes);
    case Ref(a) =>
      if a == 0 {
        Heading(0, []);
      } else if a in table.ids {
        Heading(table.ids[a], []);
      } else {
        var id := table.cur + 1;
        WriteNewRef(heap, a, table);
        Heading(Tagged(id), Write(heap, heap[a], Table(table.ids[a := id], id)).bytes);
      }
    case _ =>
  }

  /** The tag in front of a new object is read back as its number, with the top bit set. */
  lemma NewTag(heap: Heap, a: Addr, table: Table)
    requires Closed(heap) && a != 0 && a in heap && a !in table.ids && table.cur + 1 < 0x8000_0000_0000_0000
    ensures var b := Write(heap, Ref(a), table).bytes;
      |b| >= 8 && FromLe(b[..8]) == 0x8000_0000_0000_0000 + table.cur + 1
  {
    Widths();
    WriteNewRef(heap, a, table);
    LeRoundTrip(Tagged(table.cur + 1), 8);
    assert Write(heap, Ref(a), table).bytes[..8] == Le(Tagged(table.cur + 1), 8);
  }

  /** The same of a stream to which the object has been appended. */
  lemma TagWritten(heap: Heap, a: Addr, table: Table, was: seq<byte>, now: seq<byte>)
    requires Closed(heap) && RefsIn(Ref(a), heap.Keys) && TableOk(table, heap) && |heap| < MASK
    requires now == was + Write(heap, Ref(a), table).bytes
    ensures a != 0 && a !in table.ids ==>
      var t := Write(heap, Ref(a), table).table;
      && |now| >= |was| + 8 && a in t.ids && t.ids[a] == table.cur + 1
      && FromLe(now[|was|..][..8]) == 0x8000_0000_0000_0000 + t.ids[a]
  {
    if a != 0 && a !in table.ids {
      RegisterOk(table, heap, a);
      NewTag(heap, a, table);
      var t1 := Table(table.ids[a := table.cur + 1], table.cur + 1);
      WriteNewRef(heap, a, table);
      WriteTable(heap, heap[a], t1);
      assert now[|was|..] == Write(heap, Ref(a), table).bytes;
    }
  }

  lemma WriteOldRef(heap: Heap, a: Addr, table: Table)
    requires Closed(heap) && RefsIn(Ref(a), heap.Keys) && (a == 0 || a in table.ids)
    ensures Write(heap, Ref(a), table) == Written(Le(if a == 0 then 0 else table.ids[a], 8), table)
  {
  }

  /** Eight bytes as a number: their weighted sum. */
  lemma EightBytes(s: seq<byte>)
    requires |s| == 8
    ensures FromLe(s) == (s[0] as int) + 0x100 * (s[1] as int) + 0x1_0000 * (s[2] as int) + 0x100_0000 * (s[3] as int)
      + 0x1_0000_0000 * (s[4] as int) + 0x100_0000_0000 * (s[5] as int) + 0x1_0000_0000_0000 * (s[6] as int)
      + 0x100_0000_0000_0000 * (s[7] as int)
  {
    TwoBytes(s);
    TwoBytes(s[2..]);
    TwoBytes(s[4..]);
    TwoBytes(s[6..]);
    assert s[2..][2..] == s[4..] && s[4..][2..] == s[6..] && s[6..][2..] == [];
  }

  lemma TwoBytes(s: seq<byte>)
    requires |s| >= 2
    ensures FromLe(s) == (s[0] as int) + 0x100 * (s[1] as int) + 0x1_0000 * FromLe(s[2..])
  {
    assert s[1..][1..] == s[2..];
  }

  /**
   What the reader makes of the tag of a pointer, for any input. A unique pointer is absent exactly if both bytes are
   zero. A shared pointer is followed by its object exactly if the top bit of its tag is set, and then gets the next
   number; without it the tag is the number of an object met before, or, if there is none, the pointer is null.
   */
  lemma PointerTags(schema: Schema, t: Ty, c: nat, s: seq<byte>, made: Made)
    ensures var r := Read(schema, UniqueTy(t), s, made);
      if |s| < 2 then r.Err?
      else if s[0] == 0 && s[1] == 0 then r == Ok(Absent, s[2..], made)
      else
        var p := Read(schema, t, s[2..], made);
        r == if p.Err? then Err else Ok(Present(p.value), p.rest, p.made)
    ensures var r := Read(schema, SharedTy(c), s, made);
      if |s| < 8 then r.Err?
      else if s[7] >= 0x80 then
        var p := Read(schema, schema(c), s[8..], made.(cur := made.cur + 1));
        r == if p.Err? then Err
             else Ok(Ref(made.cur + 1), p.rest, p.made.(objs := p.made.objs[made.cur + 1 := p.value]))
      else
        && r.Ok? && r.rest == s[8..] && r.made == made && r.value.Ref?
        && forall k: nat :: k < 0x8000_0000_0000_0000 && Number(s[..8], k) ==>
             r.value.addr == if 1 <= k <= made.cur then k else 0
  {
    if |s| >= 2 {
      TwoBytes(s[..2]);
      assert s[..2][2..] == [];
    }
    if |s| >= 8 {
      EightBytes(s[..8]);
      forall k: nat | k < 0x8000_0000_0000_0000 && Number(s[..8], k) ensures FromLe(s[..8]) == k {
        assert s[..8] == Le(k, 8) by { LeNumber(k, 8); }
        Widths();
        LeRoundTrip(k, 8);
      }
    }
  }

  /** A tuple is read only under the count of its fields; a string or vector only if all of it is there. */
  lemma LengthTags(schema: Schema, ts: Tys, w: nat, s: seq<byte>, made: Made)
    ensures Read(schema, TupleTy(ts), s, made).Ok? ==> |s| >= 8 && FromLe(s[..8]) == |FieldTypes(ts)|
    ensures Read(schema, StringTy, s, made).Ok? <==> |s| >= 8 && |s| - 8 >= FromLe(s[..8])
    ensures Read(schema, VectorTy(w), s, made).Ok? <==> |s| >= 8 && |s| - 8 >= FromLe(s[..8]) * w
    ensures Read(schema, WordTy(w), s, made).Ok? <==> |s| >= w
  {
    CountCounts(ts);
    if |s| >= 8 && FromLe(s[..8]) == 0 { assert FromLe(s[..8]) * w == 0; }
  }
}
