/**
 The binary archive: printing a graph of shared pointers as bytes and parsing it back.

 Each object reached through a shared pointer is written once, where it is first met; later pointers to it, including
 those that close a cycle, are written as the number of that first meeting. Writer and reader number objects
 independently, in the order in which they register them.
 */
module Serializer {
  import opened Bytes

  /** An address; 0 is the null pointer. */
  type Addr = nat

  /** `PTR_ID_MASK`: set in the tag of a pointer whose object follows. */
  const MASK: nat := 0x8000_0000_0000_0000

  /** The static types of the program being serialized. `Shared(c)` points to objects of class `c`. */
  datatype Ty =
    | WordTy(width: nat)
    | StringTy
    | VectorTy(width: nat)
    | TupleTy(fields: Tys)
    | StructTy(fields: Tys)
    | UniqueTy(target: Ty)
    | SharedTy(cls: nat)

  datatype Tys = NoTy | MoreTy(head: Ty, tail: Tys)

  /** The memory image of a value. `Ref` is a shared pointer. */
  datatype Val =
    | Word(image: seq<byte>)
    | Text(chars: seq<byte>)
    | Vector(count: nat, raw: seq<byte>)
    | Tuple(vals: Vals)
    | Struct(vals: Vals)
    | Absent
    | Present(pointee: Val)
    | Ref(addr: Addr)

  datatype Vals = NoVal | MoreVal(head: Val, tail: Vals)

  /** The body type of each class. */
  type Schema = nat -> Ty

  type Heap = map<Addr, Val>

  function Count(ts: Tys): nat {
    if ts.NoTy? then 0 else 1 + Count(ts.tail)
  }

  function Length(vs: Vals): nat {
    if vs.NoVal? then 0 else 1 + Length(vs.tail)
  }

  // ---------------------------------------------------------------- well-typed graphs

  /** Every pointer inside `v` is null or points into `dom`. */
  ghost predicate RefsIn(v: Val, dom: set<Addr>) {
    match v
    case Tuple(vs) => AllRefsIn(vs, dom)
    case Struct(vs) => AllRefsIn(vs, dom)
    case Present(w) => RefsIn(w, dom)
    case Ref(a) => a == 0 || a in dom
    case _ => true
  }

  ghost predicate AllRefsIn(vs: Vals, dom: set<Addr>) {
    vs.MoreVal? ==> RefsIn(vs.head, dom) && AllRefsIn(vs.tail, dom)
  }

  ghost predicate Closed(heap: Heap) {
    0 !in heap && forall a | a in heap :: RefsIn(heap[a], heap.Keys)
  }

  ghost predicate HasType(v: Val, ty: Ty, kinds: map<Addr, nat>) {
    match ty
    case WordTy(w) => v.Word? && |v.image| == w
    case StringTy => v.Text? && |v.chars| < Pow256(8)
    case VectorTy(w) => v.Vector? && |v.raw| == v.count * w && v.count < Pow256(8)
    case TupleTy(ts) => v.Tuple? && HaveTypes(v.vals, ts, kinds) && Count(ts) < Pow256(8)
    case StructTy(ts) => v.Struct? && HaveTypes(v.vals, ts, kinds)
    case UniqueTy(t) => v.Absent? || (v.Present? && HasType(v.pointee, t, kinds))
    case SharedTy(c) => v.Ref? && (v.addr == 0 || (v.addr in kinds && kinds[v.addr] == c))
  }

  ghost predicate HaveTypes(vs: Vals, ts: Tys, kinds: map<Addr, nat>) {
    match ts
    case NoTy => vs.NoVal?
    case MoreTy(t, rest) => vs.MoreVal? && HasType(vs.head, t, kinds) && HaveTypes(vs.tail, rest, kinds)
  }

  /** A finite, well-typed object graph: sharing and cycles allowed. */
  ghost predicate GraphOk(schema: Schema, heap: Heap, kinds: map<Addr, nat>) {
    && Closed(heap) && kinds.Keys == heap.Keys && |heap| < MASK
    && forall a | a in heap :: HasType(heap[a], schema(kinds[a]), kinds)
  }

  // ---------------------------------------------------------------- writing

  /** What `RegisterPrt` remembers: the number of each address, and the last number given. */
  datatype Table = Table(ids: map<Addr, nat>, cur: nat)

  /** `id | PTR_ID_MASK`. */
  function Tagged(id: nat): nat {
    if id < MASK then id + MASK else id
  }

  datatype Written = Written(bytes: seq<byte>, table: Table)

  function Write(heap: Heap, v: Val, table: Table): (r: Written)
    requires Closed(heap) && RefsIn(v, heap.Keys)
    ensures table.ids.Keys <= r.table.ids.Keys
    decreases heap.Keys - table.ids.Keys, v
  {
    match v
    case Word(image) => Written(image, table)
    case Text(chars) => Written(Le(|chars|, 8) + chars, table)
    case Vector(count, raw) => Written(Le(count, 8) + if count == 0 then [] else raw, table)
    case Tuple(vs) => var r := WriteAll(heap, vs, table); Written(Le(Length(vs), 8) + r.bytes, r.table)
    case Struct(vs) => WriteAll(heap, vs, table)
    case Absent => Written(Le(0, 2), table)
    case Present(w) => var r := Write(heap, w, table); Written(Le(1, 2) + r.bytes, r.table)
    case Ref(a) =>
      if a == 0 then Written(Le(0, 8), table)
      else if a in table.ids then Written(Le(table.ids[a], 8), table)
      else
        var id := table.cur + 1;
        assert a in heap.Keys - table.ids.Keys && a !in heap.Keys - table.ids[a := id].Keys;
        var r := Write(heap, heap[a], Table(table.ids[a := id], id));
        Written(Le(Tagged(id), 8) + r.bytes, r.table)
  }

  function WriteAll(heap: Heap, vs: Vals, table: Table): (r: Written)
    requires Closed(heap) && AllRefsIn(vs, heap.Keys)
    ensures table.ids.Keys <= r.table.ids.Keys
    decreases heap.Keys - table.ids.Keys, vs
  {
    match vs
    case NoVal => Written([], table)
    case MoreVal(v, rest) =>
      var r1 := Write(heap, v, table);
      var r2 := WriteAll(heap, rest, r1.table);
      Written(r1.bytes + r2.bytes, r2.table)
  }

  // ---------------------------------------------------------------- reading

  /** The objects constructed so far. The k-th object the reader constructs is called k; it is registered as k too. */
  datatype Made = Made(objs: map<Addr, Val>, cur: nat)

  datatype Parsed<T> = Ok(value: T, rest: seq<byte>, made: Made) | Err

  function Read(schema: Schema, ty: Ty, s: seq<byte>, made: Made): (r: Parsed<Val>)
    ensures r.Ok? ==> |r.rest| <= |s|
    decreases |s|, ty
  {
    match ty
    case WordTy(w) => if |s| < w then Err else Ok(Word(s[..w]), s[w..], made)
    case StringTy =>
      if |s| < 8 then Err
      else
        var n := FromLe(s[..8]);
        if n == 0 then Ok(Text([]), s[8..], made)
        else if |s| - 8 < n then Err
        else Ok(Text(s[8..][..n]), s[8..][n..], made)
    case VectorTy(w) =>
      if |s| < 8 then Err
      else
        var n := FromLe(s[..8]);
        if n == 0 then Ok(Vector(0, []), s[8..], made)
        else if |s| - 8 < n * w then Err
        else Ok(Vector(n, s[8..][..n * w]), s[8..][n * w..], made)
    case TupleTy(ts) =>
      if |s| < 8 || FromLe(s[..8]) != Count(ts) then Err
      else
        var r := ReadAll(schema, ts, s[8..], made);
        if r.Err? then Err else Ok(Tuple(r.value), r.rest, r.made)
    case StructTy(ts) =>
      var r := ReadAll(schema, ts, s, made);
      if r.Err? then Err else Ok(Struct(r.value), r.rest, r.made)
    case UniqueTy(t) =>
      if |s| < 2 then Err
      else if FromLe(s[..2]) == 0 then Ok(Absent, s[2..], made)
      else
        var r := Read(schema, t, s[2..], made);
        if r.Err? then Err else Ok(Present(r.value), r.rest, r.made)
    case SharedTy(c) =>
      if |s| < 8 then Err
      else
        var tag := FromLe(s[..8]);
        if tag >= MASK then
          var id := made.cur + 1;
          var r := Read(schema, schema(c), s[8..], made.(cur := id));
          if r.Err? then Err else Ok(Ref(id), r.rest, r.made.(objs := r.made.objs[id := r.value]))
        else
          Ok(Ref(if 1 <= tag <= made.cur then tag else 0), s[8..], made)
  }

  function ReadAll(schema: Schema, ts: Tys, s: seq<byte>, made: Made): (r: Parsed<Vals>)
    ensures r.Ok? ==> |r.rest| <= |s|
    decreases |s|, ts
  {
    match ts
    case NoTy => Ok(NoVal, s, made)
    case MoreTy(t, rest) =>
      var r1 := Read(schema, t, s, made);
      if r1.Err? then Err
      else
        var r2 := ReadAll(schema, rest, r1.rest, r1.made);
        if r2.Err? then Err else Ok(MoreVal(r1.value, r2.value), r2.rest, r2.made)
  }

  // ---------------------------------------------------------------- the writer's numbering

  /** Numbers 1..cur, each given to one address of the graph. */
  ghost predicate TableOk(table: Table, heap: Heap) {
    && table.ids.Keys <= heap.Keys && |table.ids| == table.cur
    && (forall a | a in table.ids :: 1 <= table.ids[a] <= table.cur)
    && (forall a, b | a in table.ids && b in table.ids && a != b :: table.ids[a] != table.ids[b])
  }

  /** `later` keeps every number of `table` and gives only new ones. */
  ghost predicate Extends(table: Table, later: Table) {
    && (forall a | a in table.ids :: a in later.ids && later.ids[a] == table.ids[a])
    && (forall a | a in later.ids && a !in table.ids :: later.ids[a] > table.cur)
    && table.cur <= later.cur
  }

  lemma RegisterOk(table: Table, heap: Heap, a: Addr)
    requires TableOk(table, heap) && a in heap && a !in table.ids
    ensures var t := Table(table.ids[a := table.cur + 1], table.cur + 1); TableOk(t, heap) && Extends(table, t)
    ensures table.cur < |heap|
  {
    var t := Table(table.ids[a := table.cur + 1], table.cur + 1);
    assert t.ids.Keys == table.ids.Keys + {a};
    SubsetSize(t.ids.Keys, heap.Keys);
  }

  lemma SubsetSize<T>(s: set<T>, t: set<T>)
    requires s <= t
    ensures |s| <= |t|
  {
    assert t == s + (t - s);
  }

  lemma {:induction false} RefsInMonotone(v: Val, d: set<Addr>, e: set<Addr>)
    requires RefsIn(v, d) && d <= e
    ensures RefsIn(v, e)
    decreases v
  {
    match v
    case Tuple(vs) => AllRefsInMonotone(vs, d, e);
    case Struct(vs) => AllRefsInMonotone(vs, d, e);
    case Present(w) => RefsInMonotone(w, d, e);
    case _ =>
  }

  lemma {:induction false} AllRefsInMonotone(vs: Vals, d: set<Addr>, e: set<Addr>)
    requires AllRefsIn(vs, d) && d <= e
    ensures AllRefsIn(vs, e)
    decreases vs
  {
    if vs.MoreVal? {
      RefsInMonotone(vs.head, d, e);
      AllRefsInMonotone(vs.tail, d, e);
    }
  }

  /** Registered objects whose contents are complete: everything they point to is registered. */
  ghost predicate Complete(heap: Heap, table: Table, later: Table) {
    forall a | a in later.ids && a !in table.ids :: a in heap && RefsIn(heap[a], later.ids.Keys)
  }

  lemma {:induction false} WriteTable(heap: Heap, v: Val, table: Table)
    requires Closed(heap) && RefsIn(v, heap.Keys) && TableOk(table, heap)
    ensures var t := Write(heap, v, table).table;
      TableOk(t, heap) && Extends(table, t) && RefsIn(v, t.ids.Keys) && Complete(heap, table, t)
    decreases heap.Keys - table.ids.Keys, v
  {
    match v
    case Tuple(vs) => WriteAllTable(heap, vs, table);
    case Struct(vs) => WriteAllTable(heap, vs, table);
    case Present(w) => WriteTable(heap, w, table);
    case Ref(a) =>
      if a != 0 && a !in table.ids {
        var t1 := Table(table.ids[a := table.cur + 1], table.cur + 1);
        RegisterOk(table, heap, a);
        assert a in heap.Keys - table.ids.Keys && a !in heap.Keys - t1.ids.Keys;
        WriteTable(heap, heap[a], t1);
        ExtendsTransitive(table, t1, Write(heap, heap[a], t1).table);
      }
    case _ =>
  }

  lemma ExtendsTransitive(t0: Table, t1: Table, t2: Table)
    requires Extends(t0, t1) && Extends(t1, t2)
    ensures Extends(t0, t2)
  {
  }

  lemma {:induction false} WriteAllTable(heap: Heap, vs: Vals, table: Table)
    requires Closed(heap) && AllRefsIn(vs, heap.Keys) && TableOk(table, heap)
    ensures var t := WriteAll(heap, vs, table).table;
      TableOk(t, heap) && Extends(table, t) && AllRefsIn(vs, t.ids.Keys) && Complete(heap, table, t)
    decreases heap.Keys - table.ids.Keys, vs
  {
    if vs.MoreVal? {
      var t1 := Write(heap, vs.head, table).table;
      WriteTable(heap, vs.head, table);
      WriteAllTable(heap, vs.tail, t1);
      var t2 := WriteAll(heap, vs.tail, t1).table;
      ExtendsTransitive(table, t1, t2);
      RefsInMonotone(vs.head, t1.ids.Keys, t2.ids.Keys);
      forall a | a in t2.ids && a !in table.ids ensures RefsIn(heap[a], t2.ids.Keys) {
        if a in t1.ids { RefsInMonotone(heap[a], t1.ids.Keys, t2.ids.Keys); }
      }
    }
  }

  // ---------------------------------------------------------------- round trip

  /** `v` with every address replaced by its number. */
  ghost function Rename(v: Val, ids: map<Addr, nat>): Val {
    match v
    case Tuple(vs) => Tuple(RenameAll(vs, ids))
    case Struct(vs) => Struct(RenameAll(vs, ids))
    case Present(w) => Present(Rename(w, ids))
    case Ref(a) => Ref(if a in ids then ids[a] else 0)
    case _ => v
  }

  ghost function RenameAll(vs: Vals, ids: map<Addr, nat>): Vals {
    if vs.NoVal? then NoVal else MoreVal(Rename(vs.head, ids), RenameAll(vs.tail, ids))
  }

  lemma {:induction false} RenameStable(v: Val, table: Table, later: Table)
    requires RefsIn(v, table.ids.Keys) && Extends(table, later) && 0 !in later.ids
    ensures Rename(v, later.ids) == Rename(v, table.ids)
    decreases v
  {
    match v
    case Tuple(vs) => RenameAllStable(vs, table, later);
    case Struct(vs) => RenameAllStable(vs, table, later);
    case Present(w) => RenameStable(w, table, later);
    case _ =>
  }

  lemma {:induction false} RenameAllStable(vs: Vals, table: Table, later: Table)
    requires AllRefsIn(vs, table.ids.Keys) && Extends(table, later) && 0 !in later.ids
    ensures RenameAll(vs, later.ids) == RenameAll(vs, table.ids)
    decreases vs
  {
    if vs.MoreVal? {
      RenameStable(vs.head, table, later);
      RenameAllStable(vs.tail, table, later);
    }
  }

  ghost predicate MadeOk(made: Made, table: Table) {
    made.cur == table.cur && forall k | k in made.objs :: k <= made.cur
  }

  ghost function NewIds(table: Table, later: Table): set<nat> {
    set a | a in later.ids && a !in table.ids :: later.ids[a]
  }

  /** The reader has rebuilt exactly the objects the writer has registered since `table`. */
  ghost predicate Rebuilt(heap: Heap, table: Table, later: Table, made: Made, after: Made) {
    && MadeOk(after, later)
    && (forall k | k in made.objs :: k in after.objs && after.objs[k] == made.objs[k])
    && after.objs.Keys == made.objs.Keys + NewIds(table, later)
    && (forall a | a in later.ids && a !in table.ids ::
          a in heap && later.ids[a] in after.objs && after.objs[later.ids[a]] == Rename(heap[a], later.ids))
  }

  ghost predicate ReadsBack(schema: Schema, heap: Heap, ty: Ty, v: Val, table: Table, made: Made, suffix: seq<byte>)
    requires Closed(heap) && RefsIn(v, heap.Keys)
  {
    var w := Write(heap, v, table);
    var r := Read(schema, ty, w.bytes + suffix, made);
    r.Ok? && r.rest == suffix && r.value == Rename(v, w.table.ids) && Rebuilt(heap, table, w.table, made, r.made)
  }

  ghost predicate AllReadBack(
    schema: Schema, heap: Heap, ts: Tys, vs: Vals, table: Table, made: Made, suffix: seq<byte>)
    requires Closed(heap) && AllRefsIn(vs, heap.Keys)
  {
    var w := WriteAll(heap, vs, table);
    var r := ReadAll(schema, ts, w.bytes + suffix, made);
    r.Ok? && r.rest == suffix && r.value == RenameAll(vs, w.table.ids) && Rebuilt(heap, table, w.table, made, r.made)
  }

  lemma {:induction false} HeaderRoundTrip(n: nat, w: nat, body: seq<byte>, suffix: seq<byte>)
    requires n < Pow256(w)
    ensures var s := Le(n, w) + body + suffix;
      |s| == w + |body| + |suffix| && FromLe(s[..w]) == n && s[w..] == body + suffix
  {
    LeRoundTrip(n, w);
    assert (Le(n, w) + body + suffix)[..w] == Le(n, w);
  }

  /** Values without pointers or parts. */
  lemma FlatReadsBack(
    schema: Schema, heap: Heap, kinds: map<Addr, nat>, ty: Ty, v: Val, table: Table, made: Made, suffix: seq<byte>)
    requires Closed(heap) && HasType(v, ty, kinds) && MadeOk(made, table)
    requires v.Word? || v.Text? || v.Vector? || v.Absent?
    ensures ReadsBack(schema, heap, ty, v, table, made, suffix)
  {
    Widths();
    match v
    case Word(image) => assert (image + suffix)[..|image|] == image && (image + suffix)[|image|..] == suffix;
    case Text(chars) =>
      HeaderRoundTrip(|chars|, 8, chars, suffix);
      assert (chars + suffix)[..|chars|] == chars && (chars + suffix)[|chars|..] == suffix;
    case Vector(count, raw) => VectorReadsBack(schema, heap, ty.width, count, raw, table, made, suffix);
    case Absent => HeaderRoundTrip(0, 2, [], suffix); assert Le(0, 2) + [] + suffix == Le(0, 2) + suffix;
  }

  lemma VectorReadsBack(
    schema: Schema, heap: Heap, w: nat, count: nat, raw: seq<byte>, table: Table, made: Made, suffix: seq<byte>)
    requires Closed(heap) && MadeOk(made, table) && count < Pow256(8) && |raw| == count * w
    ensures ReadsBack(schema, heap, VectorTy(w), Vector(count, raw), table, made, suffix)
  {
    HeaderRoundTrip(count, 8, raw, suffix);
    assert (raw + suffix)[..|raw|] == raw && (raw + suffix)[|raw|..] == suffix;
  }

  lemma TupleReadsBack(
    schema: Schema, heap: Heap, ts: Tys, vs: Vals, table: Table, made: Made, suffix: seq<byte>)
    requires Closed(heap) && AllRefsIn(vs, heap.Keys) && Length(vs) == Count(ts) < Pow256(8)
    requires AllReadBack(schema, heap, ts, vs, table, made, suffix)
    ensures ReadsBack(schema, heap, TupleTy(ts), Tuple(vs), table, made, suffix)
  {
    HeaderRoundTrip(Length(vs), 8, WriteAll(heap, vs, table).bytes, suffix);
    hide WriteAll, ReadAll, Rebuilt, Le;
  }

  lemma StructReadsBack(
    schema: Schema, heap: Heap, ts: Tys, vs: Vals, table: Table, made: Made, suffix: seq<byte>)
    requires Closed(heap) && AllRefsIn(vs, heap.Keys) && AllReadBack(schema, heap, ts, vs, table, made, suffix)
    ensures ReadsBack(schema, heap, StructTy(ts), Struct(vs), table, made, suffix)
  {
    hide WriteAll, ReadAll, Rebuilt;
  }

  lemma PresentReadsBack(schema: Schema, heap: Heap, t: Ty, p: Val, table: Table, made: Made, suffix: seq<byte>)
    requires Closed(heap) && RefsIn(p, heap.Keys) && ReadsBack(schema, heap, t, p, table, made, suffix)
    ensures ReadsBack(schema, heap, UniqueTy(t), Present(p), table, made, suffix)
  {
    hide Read, Rebuilt, Le, Closed;
    ReadPresent(schema, t, Write(heap, p, table).bytes, suffix, made);
  }

  lemma ReadPresent(schema: Schema, t: Ty, body: seq<byte>, suffix: seq<byte>, made: Made)
    requires Read(schema, t, body + suffix, made).Ok?
    ensures var r := Read(schema, t, body + suffix, made);
      Read(schema, UniqueTy(t), Le(1, 2) + body + suffix, made) == Ok(Present(r.value), r.rest, r.made)
  {
    Widths();
    HeaderRoundTrip(1, 2, body, suffix);
    hide Le, FromLe;
  }

  /** Null pointers and pointers to registered objects. */
  lemma OldRefReadsBack(schema: Schema, heap: Heap, c: nat, a: Addr, table: Table, made: Made, suffix: seq<byte>)
    requires Closed(heap) && |heap| < MASK && TableOk(table, heap) && MadeOk(made, table) && (a == 0 || a in table.ids)
    ensures RefsIn(Ref(a), heap.Keys) && ReadsBack(schema, heap, SharedTy(c), Ref(a), table, made, suffix)
  {
    Widths();
    SubsetSize(table.ids.Keys, heap.Keys);
    var id := if a == 0 then 0 else table.ids[a];
    HeaderRoundTrip(id, 8, [], suffix);
    assert Le(id, 8) + [] + suffix == Le(id, 8) + suffix;
    hide Le;
  }

  /** A pointer to an object met for the first time: both sides register it before its contents. */
  lemma NewRefReadsBack(schema: Schema, heap: Heap, c: nat, a: Addr, table: Table, made: Made, suffix: seq<byte>)
    requires Closed(heap) && |heap| < MASK && TableOk(table, heap) && MadeOk(made, table)
    requires a != 0 && a in heap && a !in table.ids
    requires var t1 := Table(table.ids[a := table.cur + 1], table.cur + 1);
      ReadsBack(schema, heap, schema(c), heap[a], t1, made.(cur := t1.cur), suffix)
    ensures ReadsBack(schema, heap, SharedTy(c), Ref(a), table, made, suffix)
  {
    hide Write, Read, Le, FromLe, Complete, Extends, Rebuilt, TableOk, RefsIn, HasType;
    var t1 := Table(table.ids[a := table.cur + 1], table.cur + 1);
    RegisterOk(table, heap, a);
    WriteTable(heap, heap[a], t1);
    var w := Write(heap, heap[a], t1);
    WriteNewRef(heap, a, table);
    ReadNewRef(schema, c, t1.cur, w.bytes, suffix, made);
    var r := Read(schema, schema(c), w.bytes + suffix, made.(cur := t1.cur));
    NewObject(heap, a, table, t1, w.table, made, r.made);
    RenameRef(a, t1, w.table);
  }

  lemma WriteNewRef(heap: Heap, a: Addr, table: Table)
    requires Closed(heap) && a != 0 && a in heap && a !in table.ids
    ensures
      var t1 := Table(table.ids[a := table.cur + 1], table.cur + 1);
      var w := Write(heap, heap[a], t1);
      RefsIn(Ref(a), heap.Keys) && Write(heap, Ref(a), table) == Written(Le(Tagged(t1.cur), 8) + w.bytes, w.table)
  {
    hide Le;
  }

  lemma RenameRef(a: Addr, table: Table, later: Table)
    requires a in table.ids && Extends(table, later)
    ensures Rename(Ref(a), later.ids) == Ref(table.ids[a])
  {
  }

  lemma ReadNewRef(schema: Schema, c: nat, id: nat, body: seq<byte>, suffix: seq<byte>, made: Made)
    requires id == made.cur + 1 < MASK
    requires Read(schema, schema(c), body + suffix, made.(cur := id)).Ok?
    ensures var r := Read(schema, schema(c), body + suffix, made.(cur := id));
      Read(schema, SharedTy(c), Le(Tagged(id), 8) + body + suffix, made)
        == Ok(Ref(id), r.rest, r.made.(objs := r.made.objs[id := r.value]))
  {
    Widths();
    HeaderRoundTrip(Tagged(id), 8, body, suffix);
    hide Le, FromLe;
  }

  lemma NewIdsRegister(table: Table, a: Addr, t1: Table, later: Table)
    requires a !in table.ids && t1 == Table(table.ids[a := table.cur + 1], table.cur + 1)
    requires Extends(table, t1) && Extends(t1, later)
    ensures NewIds(table, later) == NewIds(t1, later) + {t1.cur}
    ensures forall b | b in later.ids && b !in table.ids :: b == a || b !in t1.ids
    ensures a in later.ids && later.ids[a] == t1.cur && forall b | b in later.ids
      && b !in t1.ids :: later.ids[b] > t1.cur
  {
    NewIdsUnion(table, t1, later);
    assert NewIds(table, t1) == {t1.cur} by {
      assert t1.ids[a] in NewIds(table, t1);
    }
  }

  /** Recording the finished contents of object `t1.cur`. */
  lemma NewObject(heap: Heap, a: Addr, table: Table, t1: Table, later: Table, made: Made, after: Made)
    requires a in heap && a !in table.ids && MadeOk(made, table)
    requires t1 == Table(table.ids[a := table.cur + 1], table.cur + 1) && Extends(table, t1) && Extends(t1, later)
    requires Rebuilt(heap, t1, later, made.(cur := t1.cur), after)
    ensures Rebuilt(heap, table, later, made, after.(objs := after.objs[t1.cur := Rename(heap[a], later.ids)]))
  {
    NewIdsRegister(table, a, t1, later);
    hide NewIds, Extends, Rename;
  }

  lemma {:induction false} RoundTrip(
    schema: Schema, heap: Heap, kinds: map<Addr, nat>, ty: Ty, v: Val, table: Table, made: Made, suffix: seq<byte>)
    requires GraphOk(schema, heap, kinds) && HasType(v, ty, kinds) && RefsIn(v, heap.Keys)
    requires TableOk(table, heap) && MadeOk(made, table)
    ensures ReadsBack(schema, heap, ty, v, table, made, suffix)
    decreases heap.Keys - table.ids.Keys, v
  {
    hide ReadsBack, AllReadBack;
    match v
    case Tuple(vs) =>
      LengthIsCount(vs, ty.fields, kinds);
      RoundTripAll(schema, heap, kinds, ty.fields, vs, table, made, suffix);
      TupleReadsBack(schema, heap, ty.fields, vs, table, made, suffix);
    case Struct(vs) => RoundTripAll(schema, heap, kinds, ty.fields, vs, table, made, suffix);
      StructReadsBack(schema, heap, ty.fields, vs, table, made, suffix);
    case Present(p) =>
      RoundTrip(schema, heap, kinds, ty.target, p, table, made, suffix);
      PresentReadsBack(schema, heap, ty.target, p, table, made, suffix);
    case Ref(a) =>
      if a == 0 || a in table.ids {
        OldRefReadsBack(schema, heap, ty.cls, a, table, made, suffix);
      } else {
        var t1 := Table(table.ids[a := table.cur + 1], table.cur + 1);
        RegisterOk(table, heap, a);
        assert a in heap.Keys - table.ids.Keys && a !in heap.Keys - t1.ids.Keys;
        RoundTrip(schema, heap, kinds, schema(ty.cls), heap[a], t1, made.(cur := t1.cur), suffix);
        NewRefReadsBack(schema, heap, ty.cls, a, table, made, suffix);
      }
    case _ => FlatReadsBack(schema, heap, kinds, ty, v, table, made, suffix);
  }

  lemma LengthIsCount(vs: Vals, ts: Tys, kinds: map<Addr, nat>)
    requires HaveTypes(vs, ts, kinds)
    ensures Length(vs) == Count(ts)
  {
  }

  lemma {:induction false} RoundTripAll(
    schema: Schema, heap: Heap, kinds: map<Addr, nat>, ts: Tys, vs: Vals, table: Table, made: Made, suffix: seq<byte>)
    requires GraphOk(schema, heap, kinds) && HaveTypes(vs, ts, kinds) && AllRefsIn(vs, heap.Keys)
    requires TableOk(table, heap) && MadeOk(made, table)
    ensures AllReadBack(schema, heap, ts, vs, table, made, suffix)
    decreases heap.Keys - table.ids.Keys, vs
  {
    hide HasType, Le, FromLe, Complete, RefsIn, Rename, Read, Write;
    if vs.NoVal? {
      assert [] + suffix == suffix;
    } else {
      var w1 := Write(heap, vs.head, table);
      var w2 := WriteAll(heap, vs.tail, w1.table);
      WriteTable(heap, vs.head, table);
      RoundTrip(schema, heap, kinds, ts.head, vs.head, table, made, w2.bytes + suffix);
      var r1 := Read(schema, ts.head, w1.bytes + (w2.bytes + suffix), made);
      RoundTripAll(schema, heap, kinds, ts.tail, vs.tail, w1.table, r1.made, suffix);
      ListReadsBack(schema, heap, ts, vs, table, made, suffix);
    }
  }

  lemma NullIsUnnumbered(heap: Heap, table: Table)
    requires Closed(heap) && TableOk(table, heap)
    ensures 0 !in table.ids
  {
  }

  /** The head reads back before whatever follows it, and the tail from there on. */
  lemma ListReadsBack(schema: Schema, heap: Heap, ts: Tys, vs: Vals, table: Table, made: Made, suffix: seq<byte>)
    requires Closed(heap) && AllRefsIn(vs, heap.Keys) && TableOk(table, heap) && ts.MoreTy? && vs.MoreVal?
    requires
      var w1 := Write(heap, vs.head, table);
      var w2 := WriteAll(heap, vs.tail, w1.table);
      && ReadsBack(schema, heap, ts.head, vs.head, table, made, w2.bytes + suffix)
      && var r1 := Read(schema, ts.head, w1.bytes + (w2.bytes + suffix), made);
         AllReadBack(schema, heap, ts.tail, vs.tail, w1.table, r1.made, suffix)
    ensures AllReadBack(schema, heap, ts, vs, table, made, suffix)
  {
    hide Read, Write, Complete, RefsIn, Rename, Extends, Rebuilt, Closed;
    var w1 := Write(heap, vs.head, table);
    var w2 := WriteAll(heap, vs.tail, w1.table);
    WriteTable(heap, vs.head, table);
    WriteAllTable(heap, vs.tail, w1.table);
    NullIsUnnumbered(heap, w2.table);
    hide TableOk;
    assert w1.bytes + w2.bytes + suffix == w1.bytes + (w2.bytes + suffix);
    var r1 := Read(schema, ts.head, w1.bytes + (w2.bytes + suffix), made);
    var r2 := ReadAll(schema, ts.tail, w2.bytes + suffix, r1.made);
    assert WriteAll(heap, vs, table) == Written(w1.bytes + w2.bytes, w2.table);
    assert ReadAll(schema, ts, w1.bytes + w2.bytes + suffix, made) == Ok(MoreVal(r1.value, r2.value), suffix, r2.made);
    RenameStable(vs.head, w1.table, w2.table);
    RebuiltTransitive(heap, table, w1.table, w2.table, made, r1.made, r2.made);
  }

  lemma NewIdsUnion(t0: Table, t1: Table, t2: Table)
    requires Extends(t0, t1) && Extends(t1, t2)
    ensures NewIds(t0, t2) == NewIds(t0, t1) + NewIds(t1, t2)
  {
    forall a | a in t2.ids && a !in t0.ids ensures t2.ids[a] in NewIds(t0, t1) + NewIds(t1, t2) {
      if a in t1.ids { assert t1.ids[a] in NewIds(t0, t1); }
    }
  }

  lemma RebuiltTransitive(heap: Heap, t0: Table, t1: Table, t2: Table, m0: Made, m1: Made, m2: Made)
    requires 0 !in t2.ids && Extends(t0, t1) && Extends(t1, t2) && Complete(heap, t0, t1)
    requires Rebuilt(heap, t0, t1, m0, m1) && Rebuilt(heap, t1, t2, m1, m2)
    ensures Rebuilt(heap, t0, t2, m0, m2)
  {
    NewIdsUnion(t0, t1, t2);
    hide NewIds, RefsIn, Rename;
    forall a | a in t2.ids && a !in t0.ids
      ensures a in heap && t2.ids[a] in m2.objs && m2.objs[t2.ids[a]] == Rename(heap[a], t2.ids)
    {
      if a in t1.ids { RenameStable(heap[a], t1, t2); }
    }
  }

  // ---------------------------------------------------------------- reachability

  ghost predicate PointsTo(v: Val, a: Addr) {
    match v
    case Tuple(vs) => SomePointsTo(vs, a)
    case Struct(vs) => SomePointsTo(vs, a)
    case Present(w) => PointsTo(w, a)
    case Ref(b) => a == b != 0
    case _ => false
  }

  ghost predicate SomePointsTo(vs: Vals, a: Addr) {
    vs.MoreVal? && (PointsTo(vs.head, a) || SomePointsTo(vs.tail, a))
  }

  /** `path` leads from `v` through the heap, pointer by pointer. */
  ghost predicate Path(heap: Heap, v: Val, path: seq<Addr>)
    decreases |path|
  {
    && |path| > 0 && PointsTo(v, path[0]) && path[0] in heap
    && (|path| > 1 ==> Path(heap, heap[path[0]], path[1..]))
  }

  ghost predicate Reaches(heap: Heap, v: Val, a: Addr) {
    exists path :: Path(heap, v, path) && path[|path| - 1] == a
  }

  /** The writer registers only what the value reaches. */
  lemma {:induction false} RegistersReachable(heap: Heap, v: Val, table: Table, a: Addr) returns (path: seq<Addr>)
    requires Closed(heap) && RefsIn(v, heap.Keys)
    requires a in Write(heap, v, table).table.ids && a !in table.ids
    ensures Path(heap, v, path) && path[|path| - 1] == a
    decreases heap.Keys - table.ids.Keys, v
  {
    match v
    case Tuple(vs) => path := AllRegisterReachable(heap, vs, table, a);
    case Struct(vs) => path := AllRegisterReachable(heap, vs, table, a);
    case Present(w) => path := RegistersReachable(heap, w, table, a);
    case Ref(b) =>
      if a == b {
        path := [b];
      } else {
        var t1 := Table(table.ids[b := table.cur + 1], table.cur + 1);
        assert b in heap.Keys - table.ids.Keys && b !in heap.Keys - t1.ids.Keys;
        var rest := RegistersReachable(heap, heap[b], t1, a);
        path := [b] + rest;
        assert path[1..] == rest;
      }
  }

  lemma {:induction false} AllRegisterReachable(heap: Heap, vs: Vals, table: Table, a: Addr)
    returns (path: seq<Addr>)
    requires Closed(heap) && AllRefsIn(vs, heap.Keys)
    requires a in WriteAll(heap, vs, table).table.ids && a !in table.ids
    ensures |path| > 0 && SomePointsTo(vs, path[0]) && path[0] in heap && path[|path| - 1] == a
    ensures |path| > 1 ==> Path(heap, heap[path[0]], path[1..])
    decreases heap.Keys - table.ids.Keys, vs
  {
    var t1 := Write(heap, vs.head, table).table;
    if a in t1.ids {
      path := RegistersReachable(heap, vs.head, table, a);
    } else {
      path := AllRegisterReachable(heap, vs.tail, t1, a);
    }
  }

  lemma {:induction false} PointsIntoRefs(v: Val, dom: set<Addr>, a: Addr)
    requires RefsIn(v, dom) && PointsTo(v, a)
    ensures a in dom
    decreases v
  {
    match v
    case Tuple(vs) => SomePointsIntoRefs(vs, dom, a);
    case Struct(vs) => SomePointsIntoRefs(vs, dom, a);
    case Present(w) => PointsIntoRefs(w, dom, a);
    case Ref(_) =>
  }

  lemma {:induction false} SomePointsIntoRefs(vs: Vals, dom: set<Addr>, a: Addr)
    requires AllRefsIn(vs, dom) && SomePointsTo(vs, a)
    ensures a in dom
    decreases vs
  {
    if PointsTo(vs.head, a) { PointsIntoRefs(vs.head, dom, a); } else { SomePointsIntoRefs(vs.tail, dom, a); }
  }

  /** A set that contains what `v` points to and is closed under pointers contains all `v` reaches. */
  lemma {:induction false} ClosedUnderPaths(heap: Heap, v: Val, dom: set<Addr>, path: seq<Addr>)
    requires RefsIn(v, dom) && (forall a | a in dom :: a in heap && RefsIn(heap[a], dom))
    requires Path(heap, v, path)
    ensures path[|path| - 1] in dom
    decreases |path|
  {
    PointsIntoRefs(v, dom, path[0]);
    if |path| > 1 {
      ClosedUnderPaths(heap, heap[path[0]], dom, path[1..]);
    }
  }

  // ---------------------------------------------------------------- main results

  const FRESH_TABLE := Table(map[], 0)
  const FRESH_MADE := Made(map[], 0)

  /** `ids` is an isomorphism from the part of `heap` that `root` reaches onto the graph `copy`, `objs`. */
  ghost predicate Isomorphic(heap: Heap, root: Val, ids: map<Addr, nat>, copy: Val, objs: Heap) {
    && (forall a :: a in ids <==> Reaches(heap, root, a))
    && (forall a, b | a in ids && b in ids && a != b :: ids[a] != ids[b])
    && (forall a | a in ids :: ids[a] != 0)
    && objs.Keys == ids.Values
    && RefsIn(root, ids.Keys) && copy == Rename(root, ids)
    && (forall a | a in ids :: a in heap && RefsIn(heap[a], ids.Keys) && objs[ids[a]] == Rename(heap[a], ids))
  }

  /**
   Serializing any finite graph, with sharing, nulls and cycles, and deserializing the bytes (whatever follows them)
   yields an isomorphic copy of the reachable part and consumes exactly the encoding.
   */
  lemma GraphRoundTrip(
    schema: Schema, heap: Heap, kinds: map<Addr, nat>, ty: Ty, root: Val, suffix: seq<byte>)
    requires GraphOk(schema, heap, kinds) && HasType(root, ty, kinds) && RefsIn(root, heap.Keys)
    ensures
      var w := Write(heap, root, FRESH_TABLE);
      var r := Read(schema, ty, w.bytes + suffix, FRESH_MADE);
      r.Ok? && r.rest == suffix && Isomorphic(heap, root, w.table.ids, r.value, r.made.objs)
  {
    var w := Write(heap, root, FRESH_TABLE);
    var r := Read(schema, ty, w.bytes + suffix, FRESH_MADE);
    RoundTrip(schema, heap, kinds, ty, root, FRESH_TABLE, FRESH_MADE, suffix);
    WriteTable(heap, root, FRESH_TABLE);
    RegistersExactlyReachable(heap, root);
    RebuiltIsIsomorphic(heap, root, w.table, r.value, r.made);
  }

  lemma AllIdsAreNew(t: Table)
    ensures NewIds(FRESH_TABLE, t) == t.ids.Values
  {
    forall k | k in t.ids.Values ensures k in NewIds(FRESH_TABLE, t) {
      var a :| a in t.ids && t.ids[a] == k;
      assert a !in FRESH_TABLE.ids;
    }
  }

  lemma RebuiltIsIsomorphic(heap: Heap, root: Val, t: Table, copy: Val, made: Made)
    requires (forall a | a in t.ids :: 1 <= t.ids[a])
    requires (forall a, b | a in t.ids && b in t.ids && a != b :: t.ids[a] != t.ids[b])
    requires Complete(heap, FRESH_TABLE, t) && RefsIn(root, t.ids.Keys)
    requires Rebuilt(heap, FRESH_TABLE, t, FRESH_MADE, made) && copy == Rename(root, t.ids)
    requires forall a :: a in t.ids <==> Reaches(heap, root, a)
    ensures Isomorphic(heap, root, t.ids, copy, made.objs)
  {
    hide Reaches, RefsIn, Rename;
    AllIdsAreNew(t);
    hide NewIds;
    assert forall a | a in t.ids :: a !in FRESH_TABLE.ids;
  }

  lemma RegistersExactlyReachable(heap: Heap, root: Val)
    requires Closed(heap) && RefsIn(root, heap.Keys)
    ensures forall a :: a in Write(heap, root, FRESH_TABLE).table.ids <==> Reaches(heap, root, a)
  {
    var t := Write(heap, root, FRESH_TABLE).table;
    WriteTable(heap, root, FRESH_TABLE);
    forall a ensures a in t.ids <==> Reaches(heap, root, a) {
      if a in t.ids {
        var path := RegistersReachable(heap, root, FRESH_TABLE, a);
      }
      if Reaches(heap, root, a) {
        var path :| Path(heap, root, path) && path[|path| - 1] == a;
        ClosedUnderPaths(heap, root, t.ids.Keys, path);
      }
    }
  }

  /** Reading does not look past what it consumes. */
  lemma {:induction false} ReadExtends(schema: Schema, ty: Ty, s: seq<byte>, t: seq<byte>, made: Made)
    requires Read(schema, ty, s, made).Ok?
    ensures var r := Read(schema, ty, s, made); Read(schema, ty, s + t, made) == Ok(r.value, r.rest + t, r.made)
    decreases |s|, ty
  {
    match ty
    case WordTy(w) => SplitAppend(s, t, w);
    case StringTy =>
      SplitAppend(s, t, 8);
      SplitAppend(s[8..], t, FromLe(s[..8]));
    case VectorTy(w) =>
      SplitAppend(s, t, 8);
      if FromLe(s[..8]) != 0 { SplitAppend(s[8..], t, FromLe(s[..8]) * w); }
    case TupleTy(ts) =>
      SplitAppend(s, t, 8);
      ReadAllExtends(schema, ts, s[8..], t, made);
    case StructTy(ts) => ReadAllExtends(schema, ts, s, t, made);
    case UniqueTy(u) =>
      SplitAppend(s, t, 2);
      if FromLe(s[..2]) != 0 { ReadExtends(schema, u, s[2..], t, made); }
    case SharedTy(c) =>
      SplitAppend(s, t, 8);
      if FromLe(s[..8]) >= MASK { ReadExtends(schema, schema(c), s[8..], t, made.(cur := made.cur + 1)); }
  }

  lemma SplitAppend(s: seq<byte>, t: seq<byte>, k: nat)
    requires k <= |s|
    ensures |s + t| >= k && (s + t)[..k] == s[..k] && (s + t)[k..] == s[k..] + t
  {
  }

  lemma {:induction false} ReadAllExtends(schema: Schema, ts: Tys, s: seq<byte>, t: seq<byte>, made: Made)
    requires ReadAll(schema, ts, s, made).Ok?
    ensures var r := ReadAll(schema, ts, s, made); ReadAll(schema, ts, s + t, made) == Ok(r.value, r.rest + t, r.made)
    decreases |s|, ts
  {
    if ts.MoreTy? {
      var r1 := Read(schema, ts.head, s, made);
      ReadExtends(schema, ts.head, s, t, made);
      ReadAllExtends(schema, ts.tail, r1.rest, t, r1.made);
    }
  }

  /** The format is self-delimiting: every strict prefix of an encoding is rejected. */
  lemma StrictPrefixRejected(schema: Schema, heap: Heap, kinds: map<Addr, nat>, ty: Ty, root: Val, k: nat)
    requires GraphOk(schema, heap, kinds) && HasType(root, ty, kinds) && RefsIn(root, heap.Keys)
    requires k < |Write(heap, root, FRESH_TABLE).bytes|
    ensures Read(schema, ty, Write(heap, root, FRESH_TABLE).bytes[..k], FRESH_MADE).Err?
  {
    hide Write, Read, HasType, RefsIn, Rebuilt, Rename;
    var bytes := Write(heap, root, FRESH_TABLE).bytes;
    RoundTrip(schema, heap, kinds, ty, root, FRESH_TABLE, FRESH_MADE, []);
    assert bytes + [] == bytes && bytes[..k] + bytes[k..] == bytes;
    if Read(schema, ty, bytes[..k], FRESH_MADE).Ok? {
      ReadExtends(schema, ty, bytes[..k], bytes[k..], FRESH_MADE);
    }
  }
}
