/** The archive objects: byte strings and registries updated in place, proved against the functions of `Serializer`. */
module Archive {
  import opened Bytes
  import opened Serializer
  import WireFormat

  /** The registry shared by both directions. */
  class SerializeBase {
    var addressToId: map<Addr, nat>
    var idToPtr: map<nat, Addr>
    var curIdx: nat

    constructor ()
      ensures Consistent() && addressToId == map[] && idToPtr == map[] && curIdx == 0
    {
      addressToId, idToPtr, curIdx := map[], map[], 0;
    }

    /** The numbers 1 to `curIdx` are given out, and the two maps are inverse to each other. */
    ghost predicate Consistent()
      reads this
    {
      && (forall k :: k in idToPtr <==> 1 <= k <= curIdx)
      && (forall k | k in idToPtr :: idToPtr[k] != 0 && idToPtr[k] in addressToId && addressToId[idToPtr[k]] == k)
      && (forall a | a in addressToId :: addressToId[a] in idToPtr && idToPtr[addressToId[a]] == a)
    }

    function Registered(): Table
      reads this
    {
      Table(addressToId, curIdx)
    }

    /** Null is 0; a known address is its number; a new one gets the next number, returned with the mask set. */
    method RegisterPtr(address: Addr) returns (id: nat)
      modifies this
      ensures old(Consistent()) ==> Consistent()
      ensures address == 0 || address in old(addressToId) ==>
        && unchanged(this)
        && id == if address == 0 then 0 else old(addressToId)[address]
      ensures address != 0 && address !in old(addressToId) ==>
        && curIdx == old(curIdx) + 1 && id == Tagged(curIdx)
        && (curIdx < 0x8000_0000_0000_0000 ==> id == 0x8000_0000_0000_0000 + curIdx)
        && addressToId == old(addressToId)[address := curIdx]
        && idToPtr == if curIdx in old(idToPtr) then old(idToPtr) else old(idToPtr)[curIdx := address]
    {
      if address == 0 {
        return 0;
      }
      if address !in addressToId {
        curIdx := curIdx + 1;
        addressToId := addressToId[address := curIdx];
        if curIdx !in idToPtr {
          idToPtr := idToPtr[curIdx := address];
        }
        return Tagged(curIdx);
      }
      return addressToId[address];
    }

    /**
     The inverse of `RegisterPtr`: the one address that has this number, which is found for the numbers given out so far
     and for no others. For those the result is null.
     */
    method GetPtr(id: nat) returns (address: Addr)
      requires Consistent()
      ensures address != 0 <==> 1 <= id <= curIdx
      ensures address != 0 ==> address in addressToId && addressToId[address] == id
      ensures forall a :: a in addressToId && addressToId[a] == id ==> a == address
    {
      address := if id in idToPtr then idToPtr[id] else 0;
    }
  }

  /** Fewer objects than the mask: no number reaches it, so the mask alone tells whether an object follows. */
  lemma NumbersAreSmall(heap: Heap, table: Table, a: Addr)
    requires TableOk(table, heap) && |heap| < MASK
    ensures a in table.ids ==> table.ids[a] < MASK
    ensures table.cur < MASK
  {
    SubsetSize(table.ids.Keys, heap.Keys);
  }

  class StringSerialize {
    const base: SerializeBase
    var str: seq<byte>

    constructor (target: seq<byte>)
      ensures str == target && fresh(base) && base.Registered() == FRESH_TABLE
    {
      base := new SerializeBase();
      str := target;
    }

    method OutPut(data: seq<byte>)
      modifies this
      ensures str == old(str) + data
    {
      str := str + data;
    }

    /** `operator()` on one argument, by the kind of value. */
    method Put(heap: Heap, v: Val)
      requires Closed(heap) && RefsIn(v, heap.Keys) && |heap| < MASK && TableOk(base.Registered(), heap)
      modifies this, base
      ensures var w := Write(heap, v, old(base.Registered()));
        str == old(str) + w.bytes && base.Registered() == w.table
      decreases heap.Keys - base.addressToId.Keys, v
    {
      hide TableOk, Closed, Le;
      match v
      case Word(image) => OutPut(image);
      case Text(chars) =>
        OutPut(Le(|chars|, 8));
        if chars != [] {
          OutPut(chars);
        }
      case Vector(count, raw) =>
        OutPut(Le(count, 8));
        if count != 0 {
          OutPut(raw);
        }
      case Tuple(vs) =>
        OutPut(Le(Length(vs), 8));
        PutAll(heap, vs);
      case Struct(vs) => PutAll(heap, vs);
      case Absent => OutPut(Le(0, 2));
      case Present(w) =>
        OutPut(Le(1, 2));
        Put(heap, w);
      case Ref(a) => PutShared(heap, a);
    }

    /** The number, with the mask when the object follows. */
    method PutShared(heap: Heap, a: Addr)
      requires Closed(heap) && RefsIn(Ref(a), heap.Keys) && |heap| < MASK && TableOk(base.Registered(), heap)
      modifies this, base
      ensures var w := Write(heap, Ref(a), old(base.Registered()));
        str == old(str) + w.bytes && base.Registered() == w.table
      ensures a != 0 && a !in old(base.addressToId) ==>
        |str| >= |old(str)| + 8 && a in base.addressToId && base.addressToId[a] == old(base.curIdx) + 1
        && FromLe(str[|old(str)|..][..8]) == 0x8000_0000_0000_0000 + base.addressToId[a]
      decreases heap.Keys - base.addressToId.Keys, Ref(a), 0
    {
      hide TableOk, Le, FromLe, Extends, Write;
      ghost var was, table := str, base.Registered();
      NumbersAreSmall(heap, table, a);
      if a == 0 || a in base.addressToId { WireFormat.WriteOldRef(heap, a, table); }
      else { RegisterOk(table, heap, a); WriteNewRef(heap, a, table); }
      var id := base.RegisterPtr(a);
      OutPut(Le(id, 8));
      if id >= MASK {
        assert a in heap.Keys - old(base.addressToId).Keys && a !in heap.Keys - base.addressToId.Keys;
        Put(heap, heap[a]);
      }
      WireFormat.TagWritten(heap, a, table, was, str);
    }

    /** `operator()` on several arguments, in order. */
    method PutAll(heap: Heap, vs: Vals)
      requires Closed(heap) && AllRefsIn(vs, heap.Keys) && |heap| < MASK && TableOk(base.Registered(), heap)
      modifies this, base
      ensures var w := WriteAll(heap, vs, old(base.Registered()));
        str == old(str) + w.bytes && base.Registered() == w.table
      decreases heap.Keys - base.addressToId.Keys, vs
    {
      ghost var before, table := str, base.Registered();
      if vs.MoreVal? {
        WriteTable(heap, vs.head, table);
        hide TableOk, Extends, Complete, Write, RefsIn, Closed;
        Put(heap, vs.head);
        ghost var w1 := Write(heap, vs.head, table);
        assert str == before + w1.bytes && base.Registered() == w1.table;
        PutAll(heap, vs.tail);
        ghost var w2 := WriteAll(heap, vs.tail, w1.table);
        assert WriteAll(heap, vs, table) == Written(w1.bytes + w2.bytes, w2.table);
      }
    }
  }

  class StringDeSerialize {
    const base: SerializeBase
    var str: seq<byte>
    /** The objects this archive has constructed. The k-th one is called k. */
    var objs: Heap

    constructor (input: seq<byte>)
      ensures Valid() && str == input && Constructed() == FRESH_MADE && fresh(base)
    {
      base := new SerializeBase();
      str := input;
      objs := map[];
    }

    /** Constructed objects are registered under their own number. */
    ghost predicate Valid()
      reads this, base
    {
      base.Consistent() && forall k | k in base.idToPtr :: base.idToPtr[k] == k
    }

    function Constructed(): Made
      reads this, base
    {
      Made(objs, base.curIdx)
    }

    /** Takes `size` bytes, or fails when fewer are left. */
    method Input(size: nat) returns (ok: bool, data: seq<byte>)
      modifies this
      ensures ok == (|old(str)| >= size) && objs == old(objs)
      ensures if ok then data == old(str)[..size] && str == old(str)[size..] else str == old(str)
    {
      if |str| < size {
        return false, [];
      }
      ok, data := true, str[..size];
      str := str[size..];
    }

    method Get(schema: Schema, ty: Ty) returns (ok: bool, v: Val)
      requires Valid()
      modifies this, base
      ensures Valid()
      ensures var r := Read(schema, ty, old(str), old(Constructed()));
        ok == r.Ok? && (ok ==> v == r.value && str == r.rest && Constructed() == r.made)
      decreases |str|, ty
    {
      v := Absent;
      match ty
      case WordTy(width) =>
        var data;
        ok, data := Input(width);
        v := Word(data);
      case StringTy =>
        var tag, data;
        ok, tag := Input(8);
        if !ok { return; }
        if FromLe(tag) == 0 { return true, Text([]); }
        ok, data := Input(FromLe(tag));
        v := Text(data);
      case VectorTy(width) =>
        var tag, data;
        ok, tag := Input(8);
        if !ok { return; }
        if FromLe(tag) == 0 { return true, Vector(0, []); }
        ok, data := Input(FromLe(tag) * width);
        v := Vector(FromLe(tag), data);
      case TupleTy(ts) =>
        var tag, vs;
        ok, tag := Input(8);
        if !ok || FromLe(tag) != Count(ts) { return false, Absent; }
        ok, vs := GetAll(schema, ts);
        v := Tuple(vs);
      case StructTy(ts) =>
        var vs;
        ok, vs := GetAll(schema, ts);
        v := Struct(vs);
      case UniqueTy(t) =>
        var tag, w;
        ok, tag := Input(2);
        if !ok || FromLe(tag) == 0 { return; }
        ok, w := Get(schema, t);
        v := Present(w);
      case SharedTy(c) =>
        ok, v := GetShared(schema, c);
    }

    /** A fresh object is constructed and registered before its contents are read. */
    method GetShared(schema: Schema, c: nat) returns (ok: bool, v: Val)
      requires Valid()
      modifies this, base
      ensures Valid()
      ensures var r := Read(schema, SharedTy(c), old(str), old(Constructed()));
        ok == r.Ok? && (ok ==> v == r.value && str == r.rest && Constructed() == r.made)
      decreases |str|, SharedTy(c), 0
    {
      v := Absent;
      var tag;
      ok, tag := Input(8);
      if !ok { return; }
      var id := FromLe(tag);
      if id >= MASK {
        var address := base.curIdx + 1;
        var _ := base.RegisterPtr(address);
        var contents;
        ok, contents := Get(schema, schema(c));
        objs := objs[address := contents];
        v := Ref(address);
      } else {
        var address := base.GetPtr(id);
        v := Ref(address);
      }
    }

    method GetAll(schema: Schema, ts: Tys) returns (ok: bool, vs: Vals)
      requires Valid()
      modifies this, base
      ensures Valid()
      ensures var r := ReadAll(schema, ts, old(str), old(Constructed()));
        ok == r.Ok? && (ok ==> vs == r.value && str == r.rest && Constructed() == r.made)
      decreases |str|, ts
    {
      ok, vs := true, NoVal;
      if ts.MoreTy? {
        var v, rest;
        ok, v := Get(schema, ts.head);
        if !ok { return; }
        ok, rest := GetAll(schema, ts.tail);
        vs := MoreVal(v, rest);
      }
    }
  }
}
