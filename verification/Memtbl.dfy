/** The memory table of src/datastruct/memtbl.c: an allocator that records every live block in a map
    keyed by the hash of its address. The map is the repaired one; the C library's answers (which
    address, or null) and the outcome of the map's own resizes are parameters. */
module Memtbl {
  import opened Table
  import HM = HashMap
  import Keys
  import RM = RepairedMap
  import MapIter
  import opened Sequences

  type Addr = nat

  /** The C heap: the live blocks, and the history of released ones. Address zero is null. */
  class Heap {
    var live: set<Addr>
    ghost var released: seq<Addr>

    constructor ()
      ensures live == {} && released == []
    {
      live := {};
      released := [];
    }

    /** `answer` is what malloc returns: null, or a block that is not live. */
    method Malloc(answer: Addr)
      requires answer !in live
      modifies this
      ensures live == old(live) + (if answer == 0 then {} else {answer}) && released == old(released)
    {
      live := live + (if answer == 0 then {} else {answer});
    }

    method Free(a: Addr)
      requires a in live
      modifies this
      ensures live == old(live) - {a} && released == old(released) + [a]
    {
      live := live - {a};
      released := released + [a];
    }

    /** `answer` is what realloc returns: null and nothing changes, the same block, or a fresh one. */
    method Realloc(a: Addr, answer: Addr)
      requires a in live && (answer == a || answer !in live)
      modifies this
      ensures live == if answer == 0 || answer == a then old(live) else old(live) - {a} + {answer}
      ensures released == old(released)
    {
      if answer != 0 && answer != a {
        live := live - {a} + {answer};
      }
    }
  }

  /** The map holds exactly the owned addresses, each under its own hash. */
  predicate Agreement(m: Contents, owned: set<Addr>, hashOf: Addr -> Hash) {
    && (forall a :: a in owned ==> a != 0 && hashOf(a) in m && m[hashOf(a)].data == a)
    && (forall h :: h in m ==> h != 0 && m[h].data in owned && hashOf(m[h].data) == h)
  }

  /** The hash of `a` is usable: nonzero, and not the hash of a block already owned. */
  predicate NoClash(a: Addr, owned: set<Addr>, hashOf: Addr -> Hash) {
    hashOf(a) != 0 && forall b :: b in owned ==> hashOf(b) != hashOf(a)
  }

  /** Recording a new block keeps the agreement if and only if its hash is usable. */
  lemma RecordAgrees(m: Contents, owned: set<Addr>, hashOf: Addr -> Hash, a: Addr, v: Handle)
    requires Agreement(m, owned, hashOf) && a != 0 && a !in owned && v.data == a
    ensures Agreement(m[hashOf(a) := v], owned + {a}, hashOf) <==> NoClash(a, owned, hashOf)
    ensures NoClash(a, owned, hashOf) ==> hashOf(a) != 0
  {
    var m', owned' := m[hashOf(a) := v], owned + {a};
    if !NoClash(a, owned, hashOf) && hashOf(a) != 0 {
      var b :| b in owned && hashOf(b) == hashOf(a);
      assert b in owned' && m'[hashOf(b)].data == a;
    }
    assert hashOf(a) in m';
  }

  lemma ForgetAgrees(m: Contents, owned: set<Addr>, hashOf: Addr -> Hash, a: Addr)
    requires Agreement(m, owned, hashOf) && a in owned
    ensures Agreement(m - {hashOf(a)}, owned - {a}, hashOf)
    ensures hashOf(a) in m && m[hashOf(a)].data == a
  {
  }

  /** What a move does to the agreement, from the state before it: the new entry is put in, the old key
      is taken out, and the old block is no longer owned. */
  lemma MoveAgrees(m: Contents, owned: set<Addr>, hashOf: Addr -> Hash, a: Addr, answer: Addr, v: Handle)
    requires Agreement(m, owned, hashOf) && a in owned && answer != 0 && answer !in owned && v.data == answer
    ensures hashOf(a) in m && !Agreement(m, owned - {a}, hashOf)
    ensures forall n, growOk :: RM.Storable(m, n, hashOf(answer), growOk) ==> hashOf(answer) != 0
    ensures hashOf(answer) != 0 ==>
              var m' := m[hashOf(answer) := v] - {hashOf(a)};
              && (Agreement(m', owned - {a} + {answer}, hashOf) <==> NoClash(answer, owned, hashOf))
              && (Agreement(m', owned - {a}, hashOf) <==> hashOf(answer) == hashOf(a))
  {
    var h, k := hashOf(answer), hashOf(a);
    var m1, m' := m[h := v], m[h := v] - {k};
    assert m[k].data == a && a !in owned - {a};
    if h != 0 {
      assert h != k ==> m'[h].data == answer;
      RecordAgrees(m, owned, hashOf, answer, v);
      if NoClash(answer, owned, hashOf) {
        ForgetAgrees(m1, owned + {answer}, hashOf, a);
        assert owned + {answer} - {a} == owned - {a} + {answer};
      } else if h == k {
        ForgetAgrees(m, owned, hashOf, a);
        assert m' == m - {k};
        assert answer in owned - {a} + {answer} && h !in m';
      } else {
        var b :| b in owned && hashOf(b) == h;
        assert b in owned - {a} + {answer} && m'[hashOf(b)].data == answer;
      }
    }
  }

  /** The map's own resizes let a move through, told from the state before the call: a growth that the
      new entry needs can be had, and so can a shrink that taking out the old entry needs. A move that
      grows the table does not then shrink it. */
  predicate MoveSucceeds(m: Contents, tableSize: nat, initial: nat, h: Hash, growOk: bool, shrinkOk: bool) {
    var left := if h in m then |m| - 1 else |m|;
    && RM.Storable(m, tableSize, h, growOk)
    && (!RM.NeedsGrowth(m, tableSize, h) && RM.NeedsShrink(left, tableSize, initial) ==> shrinkOk)
  }

  /** The size of the map's table after a move that succeeds: it grows, or shrinks, or neither. */
  function SizeAfterMove(m: Contents, tableSize: nat, initial: nat, h: Hash): nat {
    if RM.NeedsGrowth(m, tableSize, h) then 2 * tableSize
    else RM.SizeAfterDelete(if h in m then |m| - 1 else |m|, tableSize, initial, true)
  }

  /** With the load limits written out. */
  lemma MoveSucceedsIff(m: Contents, tableSize: nat, initial: nat, h: Hash, growOk: bool, shrinkOk: bool)
    ensures var grows := h !in m && 2 * (|m| + 1) > tableSize;
            var shrinks := !grows && 4 * (if h in m then |m| else |m| + 1) <= tableSize && tableSize > initial;
            && (MoveSucceeds(m, tableSize, initial, h, growOk, shrinkOk) <==>
                  h != 0 && (grows ==> growOk) && (shrinks ==> shrinkOk))
            && SizeAfterMove(m, tableSize, initial, h) ==
               if grows then 2 * tableSize else if shrinks then tableSize / 2 else tableSize
  {
  }

  function BlocksAt(s: Slots, visited: seq<nat>): (a: seq<Addr>)
    requires forall i :: 0 <= i < |visited| ==> visited[i] < |s|
    ensures |a| == |visited| && forall i :: 0 <= i < |a| ==> a[i] == s[visited[i]].value.data
  {
    seq(|visited|, i requires 0 <= i < |visited| => s[visited[i]].value.data)
  }

  /** A snapshot of the map's values lists the owned blocks, each once. */
  lemma SnapshotIsOwned(s: Slots, m: Contents, owned: set<Addr>, hashOf: Addr -> Hash)
    requires Lists(s, m) && Agreement(m, owned, hashOf)
    ensures forall i :: 0 <= i < |MapIter.ValuedSlots(s)| ==> MapIter.ValuedSlots(s)[i] < |s|
    ensures var blocks := BlocksAt(s, MapIter.ValuedSlots(s));
            NoDuplicates(blocks) && forall a :: a in owned <==> a in blocks
  {
    var visited := MapIter.ValuedSlots(s);
    MapIter.VisitsContents(s, m);
    hide Lists, MapIter.ValuedSlots;
    var blocks := BlocksAt(s, visited);
    forall i | 0 <= i < |blocks|
      ensures blocks[i] in owned && hashOf(blocks[i]) == s[visited[i]].hash
    {
      assert s[visited[i]].hash in m;
    }
    forall a | a in owned
      ensures a in blocks
    {
      var i :| 0 <= i < |visited| && s[visited[i]].hash == hashOf(a);
      assert blocks[i] == a;
    }
  }

  class MemTable {
    const hashOf: Addr -> Hash
    const heap: Heap
    const table: RM.Map
    /** The blocks this table has allocated and not released. */
    ghost var owned: set<Addr>

    ghost predicate WellBuilt()
      reads this, heap, table, table.entries
    {
      table.Valid() && owned <= heap.live && 0 !in owned
    }

    ghost predicate Valid()
      reads this, heap, table, table.entries
    {
      WellBuilt() && Agreement(table.contents, owned, hashOf)
    }

    ghost function Told(): Book
      reads this, heap, table
    {
      Book(table.contents, table.tableSize, owned, heap.live, heap.released)
    }

    constructor (heap: Heap, table: RM.Map, hashOf: Addr -> Hash)
      requires table.Valid() && table.contents == map[]
      ensures Valid() && owned == {} && this.heap == heap && this.table == table && this.hashOf == hashOf
    {
      this.heap := heap;
      this.table := table;
      this.hashOf := hashOf;
      owned := {};
    }

    /** `memtbl_alloc`: exactly when an allocation succeeds, and exactly when the table stays in agreement
        with the heap: the hash of a recorded block must not be that of another one. */
    method Alloc(size: nat, answer: Addr, growOk: bool) returns (result: Handle)
      requires Valid() && answer !in heap.live
      modifies this, heap, table, table.entries
      ensures WellBuilt() && (table.entries == old(table.entries) || fresh(table.entries))
      ensures result == NULL_HANDLE <==>
              answer == 0 || !RM.Storable(old(table.contents), old(table.tableSize), hashOf(answer), growOk)
      ensures result != NULL_HANDLE ==> result == Handle(answer, size)
      ensures result == NULL_HANDLE ==>
                && owned == old(owned) && heap.live == old(heap.live)
                && heap.released == old(heap.released) + if answer == 0 then [] else [answer]
      ensures result != NULL_HANDLE ==>
                && owned == old(owned) + {answer} && heap.live == old(heap.live) + {answer}
                && heap.released == old(heap.released)
      ensures table.contents ==
              if result == NULL_HANDLE then old(table.contents) else old(table.contents)[hashOf(answer) := result]
      ensures table.tableSize ==
              if result == NULL_HANDLE then old(table.tableSize)
              else RM.SizeAfterSet(old(table.contents), old(table.tableSize), hashOf(answer))
      ensures Valid() <==> result == NULL_HANDLE || NoClash(answer, old(owned), hashOf)
    {
      hide RM.StandsFor, Agreement, NoClash, RM.Storable, RM.NeedsGrowth;
      heap.Malloc(answer);
      if answer == 0 {
        return NULL_HANDLE;
      }
      result := Handle(answer, size);
      RecordAgrees(table.contents, owned, hashOf, answer, result);
      var stored := table.Set(hashOf(answer), result, growOk);
      if !stored {
        heap.Free(answer);
        assert heap.live == old(heap.live);
        return NULL_HANDLE;
      }
      owned := owned + {answer};
    }

    /** `memtbl_free`; the handle names a live block of this table, or is invalid. */
    method Free(handle: Handle, shrinkOk: bool)
      requires Valid() && (handle.data == 0 || handle.data in owned)
      modifies this, heap, table, table.entries
      ensures Valid() && (table.entries == old(table.entries) || fresh(table.entries))
      ensures owned == old(owned) - {handle.data}
      ensures heap.live == old(heap.live) - (if handle.data == 0 then {} else {handle.data})
      ensures heap.released == old(heap.released) + if handle.data == 0 then [] else [handle.data]
      ensures handle.data == 0 ==> table.contents == old(table.contents) && table.tableSize == old(table.tableSize)
      ensures handle.data != 0 ==>
                && table.contents == old(table.contents) - {hashOf(handle.data)}
                && table.tableSize ==
                   RM.SizeAfterDelete(|old(table.contents)| - 1, old(table.tableSize), table.initialSize, shrinkOk)
    {
      if handle.data == 0 {
        return;
      }
      ForgetAgrees(table.contents, owned, hashOf, handle.data);
      var deleted := table.Delete(hashOf(handle.data), shrinkOk);
      heap.Free(handle.data);
      owned := owned - {handle.data};
    }

    /** The block moves. */
    static predicate Moves(a: Addr, answer: Addr) {
      a != 0 && answer != 0 && answer != a
    }

    /** The map's part of a move: put in the new entry, and take out the old one if that worked. */
    method MoveEntry(a: Addr, v: Handle, growOk: bool, shrinkOk: bool) returns (moved: bool)
      requires table.Valid() && hashOf(a) in table.contents && v.data != 0
      modifies table, table.entries
      ensures table.Valid() && (table.entries == old(table.entries) || fresh(table.entries))
      ensures moved <==>
              MoveSucceeds(old(table.contents), old(table.tableSize), table.initialSize, hashOf(v.data),
                           growOk, shrinkOk)
      ensures moved ==> RM.Storable(old(table.contents), old(table.tableSize), hashOf(v.data), growOk)
      ensures table.contents ==
              if RM.Storable(old(table.contents), old(table.tableSize), hashOf(v.data), growOk)
              then old(table.contents)[hashOf(v.data) := v] - {hashOf(a)} else old(table.contents)
      ensures moved ==>
                table.tableSize ==
                SizeAfterMove(old(table.contents), old(table.tableSize), table.initialSize, hashOf(v.data))
    {
      hide RM.StandsFor, RM.Map.Valid;
      ghost var m, h := table.contents, hashOf(v.data);
      var stored := table.Set(hashOf(v.data), v, growOk);
      if !stored {
        return false;
      }
      assert |m[h := v]| == if h in m then |m| else |m| + 1 by {
        assert m[h := v].Keys == m.Keys + {h};
      }
      moved := table.Delete(hashOf(a), shrinkOk);
    }

    /** `memtbl_realloc`; the handle names a live block of this table, or is invalid. When the block moves,
        it succeeds exactly when the map's own resizes do (`MoveSucceeds`); and then the table stays in
        agreement with the heap exactly when the new hash is usable. A move that fails leaves the table
        naming a dead block, unless the new block had taken over the entry of the old one. */
    method Realloc(handle: Handle, size: nat, answer: Addr, growOk: bool, shrinkOk: bool) returns (result: Handle)
      requires Valid() && (handle.data == 0 || handle.data in owned)
      requires answer == handle.data || answer !in heap.live
      modifies this, heap, table, table.entries
      ensures WellBuilt() && (table.entries == old(table.entries) || fresh(table.entries))
      ensures !Moves(handle.data, answer) ==>
                && result == (if handle.data == 0 || answer == 0 then NULL_HANDLE else Handle(answer, size))
                && owned == old(owned) && heap.live == old(heap.live) && heap.released == old(heap.released)
                && table.contents == old(table.contents) && table.tableSize == old(table.tableSize) && Valid()
      ensures Moves(handle.data, answer) ==>
                var m, n, h := old(table.contents), old(table.tableSize), hashOf(answer);
                var moved := MoveSucceeds(m, n, table.initialSize, h, growOk, shrinkOk);
                && result == (if moved then Handle(answer, size) else NULL_HANDLE)
                && owned == old(owned) - {handle.data} + (if moved then {answer} else {})
                && heap.live == old(heap.live) - {handle.data} + (if moved then {answer} else {})
                && heap.released == old(heap.released) + (if moved then [] else [answer])
                && table.contents == (if RM.Storable(m, n, h, growOk)
                                      then m[h := Handle(answer, size)] - {hashOf(handle.data)} else m)
                && (moved ==> RM.Storable(m, n, h, growOk))
                && (moved ==> table.tableSize == SizeAfterMove(m, n, table.initialSize, h))
                && (Valid() <==> if moved then NoClash(answer, old(owned), hashOf)
                                 else RM.Storable(m, n, h, growOk) && h == hashOf(handle.data))
    {
      hide RM.StandsFor, RM.Map.Valid, RM.Storable, RM.NeedsGrowth, MoveSucceeds, Agreement, NoClash;
      if handle.data == 0 {
        return NULL_HANDLE;
      }
      var oldData := handle.data;
      heap.Realloc(oldData, answer);
      if answer == 0 {
        return NULL_HANDLE;
      }
      result := Handle(answer, size);
      if answer != oldData {
        MoveAgrees(table.contents, owned, hashOf, oldData, answer, result);
        owned := owned - {oldData};
        var moved := MoveEntry(oldData, result, growOk, shrinkOk);
        if !moved {
          heap.Free(answer);
          return NULL_HANDLE;
        }
        owned := owned + {answer};
      }
    }

    /** `memtbl_p`: a live block of the table answers its address; any other answers null, unless its
        hash is that of a live block. */
    method P(handle: Handle) returns (data: Addr)
      requires Valid()
      ensures handle.data in owned ==> data == handle.data
      ensures data != 0 ==> data in owned && hashOf(data) == hashOf(handle.data)
      ensures data != 0 <==> handle.data != 0 && exists a :: a in owned && hashOf(a) == hashOf(handle.data)
    {
      if handle.data == 0 {
        return 0;
      }
      var result := table.Get(hashOf(handle.data));
      return result.data;
    }

    /** `memtbl_destroy` with R6: the values are collected before any of them is freed. */
    method Destroy() returns (freed: seq<Addr>)
      requires Valid()
      modifies this, heap, table, table.entries
      ensures NoDuplicates(freed) && forall a :: a in freed <==> a in old(owned)
      ensures heap.released == old(heap.released) + freed
      ensures owned == {} && heap.live == old(heap.live) - old(owned)
    {
      hide RM.StandsFor, Agreement;
      table.ValidListsContents();
      SnapshotIsOwned(table.entries[..], table.contents, owned, hashOf);
      var visited := MapIter.VisitAll(table.entries);
      freed := BlocksAt(table.entries[..], visited);
      FreeAll(freed);
    }

    method FreeAll(blocks: seq<Addr>)
      requires Valid() && NoDuplicates(blocks) && forall a :: a in owned <==> a in blocks
      modifies this, heap, table, table.entries
      ensures heap.released == old(heap.released) + blocks
      ensures owned == {} && heap.live == old(heap.live) - old(owned)
    {
      hide RM.StandsFor, Agreement;
      var i := 0;
      while i < |blocks|
        invariant 0 <= i <= |blocks| && Valid() && (table.entries == old(table.entries) || fresh(table.entries))
        invariant forall a :: a in owned <==> a in blocks[i..]
        invariant heap.live == old(heap.live) - (old(owned) - owned) && owned <= old(owned)
        invariant heap.released == old(heap.released) + blocks[..i]
      {
        assert blocks[i..] == [blocks[i]] + blocks[i + 1..];
        assert blocks[..i + 1] == blocks[..i] + [blocks[i]];
        assert blocks[i] in owned && blocks[i] !in blocks[i + 1..];
        Free(Handle(blocks[i], 0), true);
        i := i + 1;
      }
      assert blocks[..i] == blocks;
    }
  }

  // ---------------------------------------------------------------- runs

  /** A call, the C library's answer to it, and whether the map's resizes inside it succeed. */
  datatype Call =
    | AllocCall(size: nat, answer: Addr, growOk: bool)
    | ReallocCall(a: Addr, size: nat, answer: Addr, growOk: bool, shrinkOk: bool)
    | FreeCall(a: Addr, shrinkOk: bool)

  /** A memory table and its heap, told without objects: the map's contents and table size, the blocks allocated
      and not released, all live blocks, and the released ones in order. */
  datatype Book = Book(contents: Contents, tableSize: nat, owned: set<Addr>, live: set<Addr>, released: seq<Addr>)

  function AfterCall(b: Book, initial: nat, hashOf: Addr -> Hash, call: Call): Book {
    match call
    case AllocCall(size, answer, growOk) =>
      var h := hashOf(answer);
      if answer == 0 then b
      else if !RM.Storable(b.contents, b.tableSize, h, growOk) then b.(released := b.released + [answer])
      else
        Book(b.contents[h := Handle(answer, size)], RM.SizeAfterSet(b.contents, b.tableSize, h),
             b.owned + {answer}, b.live + {answer}, b.released)
    case ReallocCall(a, size, answer, _, _) =>
      var h := hashOf(answer);
      if !MemTable.Moves(a, answer) then b
      else
        Book(b.contents[h := Handle(answer, size)] - {hashOf(a)}, SizeAfterMove(b.contents, b.tableSize, initial, h),
             b.owned - {a} + {answer}, b.live - {a} + {answer}, b.released)
    case FreeCall(a, shrinkOk) =>
      Book(b.contents - {hashOf(a)}, RM.SizeAfterDelete(|b.contents| - 1, b.tableSize, initial, shrinkOk),
           b.owned - {a}, b.live - {a}, b.released + [a])
  }

  function AfterAll(b: Book, initial: nat, hashOf: Addr -> Hash, calls: seq<Call>): Book
    decreases |calls|
  {
    if |calls| == 0 then b else AfterAll(AfterCall(b, initial, hashOf, calls[0]), initial, hashOf, calls[1..])
  }

  /** What the C library and the callers guarantee: answers are new blocks whose hash no owned block has (or null,
      or the same block), and only owned blocks are reallocated or freed. A block that moves needs a usable
      hash and the map's resizes; any other resize may fail. */
  predicate Admissible(b: Book, initial: nat, hashOf: Addr -> Hash, call: Call) {
    match call
    case AllocCall(_, answer, _) =>
      answer !in b.live && (answer != 0 && hashOf(answer) != 0 ==> NoClash(answer, b.owned, hashOf))
    case ReallocCall(a, _, answer, growOk, shrinkOk) =>
      && a in b.owned && (answer == a || answer !in b.live)
      && (MemTable.Moves(a, answer) ==>
            && NoClash(answer, b.owned, hashOf)
            && MoveSucceeds(b.contents, b.tableSize, initial, hashOf(answer), growOk, shrinkOk))
    case FreeCall(a, _) => a in b.owned
  }

  predicate AllAdmissible(b: Book, initial: nat, hashOf: Addr -> Hash, calls: seq<Call>)
    decreases |calls|
  {
    |calls| == 0
    || (Admissible(b, initial, hashOf, calls[0])
        && AllAdmissible(AfterCall(b, initial, hashOf, calls[0]), initial, hashOf, calls[1..]))
  }

  lemma FirstCall(b: Book, initial: nat, hashOf: Addr -> Hash, calls: seq<Call>)
    requires |calls| > 0 && AllAdmissible(b, initial, hashOf, calls)
    ensures Admissible(b, initial, hashOf, calls[0])
    ensures var next := AfterCall(b, initial, hashOf, calls[0]);
            && AllAdmissible(next, initial, hashOf, calls[1..])
            && AfterAll(b, initial, hashOf, calls) == AfterAll(next, initial, hashOf, calls[1..])
  {
  }

  method PerformAlloc(mt: MemTable, call: Call)
    requires call.AllocCall? && mt.Valid() && Admissible(mt.Told(), mt.table.initialSize, mt.hashOf, call)
    modifies mt, mt.heap, mt.table, mt.table.entries
    ensures mt.Valid() && (mt.table.entries == old(mt.table.entries) || fresh(mt.table.entries))
    ensures mt.Told() == AfterCall(old(mt.Told()), mt.table.initialSize, mt.hashOf, call)
  {
    assert RM.Storable(mt.table.contents, mt.table.tableSize, mt.hashOf(call.answer), call.growOk) ==>
        mt.hashOf(call.answer) != 0;
    hide RM.StandsFor, Agreement, NoClash, RM.SizeAfterSet, RM.Storable;
    var r := mt.Alloc(call.size, call.answer, call.growOk);
  }

  method PerformRealloc(mt: MemTable, call: Call)
    requires call.ReallocCall? && mt.Valid() && Admissible(mt.Told(), mt.table.initialSize, mt.hashOf, call)
    modifies mt, mt.heap, mt.table, mt.table.entries
    ensures mt.Valid() && (mt.table.entries == old(mt.table.entries) || fresh(mt.table.entries))
    ensures mt.Told() == AfterCall(old(mt.Told()), mt.table.initialSize, mt.hashOf, call)
  {
    assert call.a != 0;
    hide RM.StandsFor, RM.Map.Valid, Agreement, NoClash, SizeAfterMove, MoveSucceeds, RM.Storable, RM.NeedsGrowth;
    var r := mt.Realloc(Handle(call.a, call.size), call.size, call.answer, call.growOk, call.shrinkOk);
  }

  method PerformCall(mt: MemTable, call: Call)
    requires mt.Valid() && Admissible(mt.Told(), mt.table.initialSize, mt.hashOf, call)
    modifies mt, mt.heap, mt.table, mt.table.entries
    ensures mt.Valid() && (mt.table.entries == old(mt.table.entries) || fresh(mt.table.entries))
    ensures mt.Told() == AfterCall(old(mt.Told()), mt.table.initialSize, mt.hashOf, call)
  {
    hide RM.StandsFor, RM.Map.Valid, Agreement, RM.SizeAfterDelete;
    match call {
      case AllocCall(_, _, _) =>
        PerformAlloc(mt, call);
      case ReallocCall(_, _, _, _, _) =>
        PerformRealloc(mt, call);
      case FreeCall(a, shrinkOk) =>
        mt.Free(Handle(a, 0), shrinkOk);
    }
  }

  /** After every run of allocations, reallocations and frees the table is in agreement with the heap: its keys
      are those of exactly the blocks allocated and not released. Allocations may fail to record their block,
      and frees to shrink the map. */
  method PerformCalls(mt: MemTable, calls: seq<Call>)
    requires mt.Valid() && AllAdmissible(mt.Told(), mt.table.initialSize, mt.hashOf, calls)
    modifies mt, mt.heap, mt.table, mt.table.entries
    ensures mt.Valid() && (mt.table.entries == old(mt.table.entries) || fresh(mt.table.entries))
    ensures mt.Told() == AfterAll(old(mt.Told()), mt.table.initialSize, mt.hashOf, calls)
    ensures Agreement(mt.table.contents, mt.owned, mt.hashOf)
    decreases |calls|
  {
    if |calls| > 0 {
      FirstCall(mt.Told(), mt.table.initialSize, mt.hashOf, calls);
      hide *;
      PerformCall(mt, calls[0]);
      PerformCalls(mt, calls[1..]);
    }
  }

  /** Destroying the table after such a run releases each block it still owns once, and nothing else. */
  method PerformAndDestroy(mt: MemTable, calls: seq<Call>) returns (freed: seq<Addr>)
    requires mt.Valid() && AllAdmissible(mt.Told(), mt.table.initialSize, mt.hashOf, calls)
    modifies mt, mt.heap, mt.table, mt.table.entries
    ensures var b := AfterAll(old(mt.Told()), mt.table.initialSize, mt.hashOf, calls);
            && NoDuplicates(freed) && (forall a :: a in freed <==> a in b.owned)
            && mt.heap.released == b.released + freed && mt.heap.live == b.live - b.owned
    ensures mt.owned == {}
  {
    PerformCalls(mt, calls);
    freed := mt.Destroy();
  }

  // ---------------------------------------------------------------- a move that fails

  function FirstBlocks(n: nat): (blocks: set<Addr>)
    ensures forall a :: a in blocks <==> 1 <= a <= n
  {
    if n == 0 then {} else FirstBlocks(n - 1) + {n}
  }

  /** The hashes of the blocks 1 to 17 are usable. */
  predicate FirstHashesUsable(hashOf: Addr -> Hash) {
    && (forall a, b :: 1 <= a < b <= 17 ==> hashOf(a) != hashOf(b))
    && (forall a :: 1 <= a <= 17 ==> hashOf(a) != 0)
  }

  lemma NextIsUsable(m: Contents, hashOf: Addr -> Hash, n: nat, v: Handle)
    requires FirstHashesUsable(hashOf) && n <= 16 && Agreement(m, FirstBlocks(n), hashOf)
    ensures NoClash(n + 1, FirstBlocks(n), hashOf)
    ensures hashOf(n + 1) != 0 && hashOf(n + 1) !in m && |m[hashOf(n + 1) := v]| == |m| + 1
    ensures FirstBlocks(n + 1) == FirstBlocks(n) + {n + 1}
  {
    assert NoClash(n + 1, FirstBlocks(n), hashOf);
    hide NoClash, FirstHashesUsable, FirstBlocks;
    UsableIsNew(m, FirstBlocks(n), hashOf, n + 1, v);
  }

  lemma UsableIsNew(m: Contents, owned: set<Addr>, hashOf: Addr -> Hash, a: Addr, v: Handle)
    requires Agreement(m, owned, hashOf) && NoClash(a, owned, hashOf)
    ensures hashOf(a) !in m && |m[hashOf(a) := v]| == |m| + 1
  {
    assert m[hashOf(a) := v].Keys == m.Keys + {hashOf(a)};
  }

  /** A new table of 32 slots with as many blocks as it takes without growing. */
  method FilledTable(hashOf: Addr -> Hash) returns (mt: MemTable)
    requires FirstHashesUsable(hashOf)
    ensures mt.Valid() && fresh(mt) && fresh(mt.heap) && fresh(mt.table) && fresh(mt.table.entries)
    ensures mt.hashOf == hashOf && mt.owned == mt.heap.live == FirstBlocks(16)
    ensures |mt.table.contents| == 16 && mt.table.tableSize == 32
  {
    hide RM.StandsFor, RM.Map.Valid, Agreement, NoClash, FirstHashesUsable, FirstBlocks;
    assert FirstBlocks(0) == {};
    var heap := new Heap();
    var table := new RM.Map(32);
    mt := new MemTable(heap, table, hashOf);
    var i := 0;
    while i < 16
      invariant 0 <= i <= 16 && mt.Valid() && mt.hashOf == hashOf
      invariant fresh(mt) && fresh(mt.heap) && fresh(mt.table) && fresh(mt.table.entries)
      invariant mt.owned == mt.heap.live == FirstBlocks(i) && |mt.table.contents| == i && mt.table.tableSize == 32
    {
      NextIsUsable(mt.table.contents, hashOf, i, Handle(i + 1, 1));
      var block := mt.Alloc(1, i + 1, true);
      i := i + 1;
    }
  }

  /** The hashes of those addresses are usable. */
  lemma FirstPointersUsable()
    ensures FirstHashesUsable(Keys.PtrHash)
  {
    forall a, b | 1 <= a < b <= 17
      ensures Keys.PtrHash(a) != Keys.PtrHash(b)
    {
      Keys.SmallPointers(a, b);
    }
    forall a | 1 <= a <= 17
      ensures Keys.PtrHash(a) != 0
    {
      Keys.SmallPointers(a, a);
    }
  }

  /** Sixteen blocks fill a new table of 32 slots to half load. When one of them then moves and the map
      cannot grow, the table is left naming the dead block, whatever the hashes are; the hashes of pointers
      will do (`FirstPointersUsable`). */
  method DeadBlockAfterMove(hashOf: Addr -> Hash) returns (mt: MemTable)
    requires FirstHashesUsable(hashOf)
    ensures hashOf(1) in mt.table.contents && mt.table.contents[hashOf(1)].data == 1 && 1 !in mt.heap.live
    ensures !mt.Valid()
  {
    mt := FilledTable(hashOf);
    hide RM.StandsFor;
    NextIsUsable(mt.table.contents, hashOf, 16, Handle(17, 2));
    var moved := mt.Realloc(Handle(1, 1), 2, 17, false, true);
  }

  // ---------------------------------------------------------------- destroy as it is written

  /** What `mem_p` answers for the value in a slot: the address the table finds under its hash. */
  ghost function MemP(t: Slots, p: nat): Addr
    requires p < |t| && HasEmpty(t)
  {
    if t[p].value.data == 0 then 0 else Lookup(t, t[p].hash).data
  }

  datatype Sweep = Sweep(slots: Slots, released: seq<Addr>)

  /** The slots and the released blocks after the loop of `memtbl_destroy` has passed the first `k`
      slots: a slot whose value is still found is freed, which deletes its key; others are skipped. The
      table is at its initial size, so no delete shrinks it. */
  ghost function SweepTo(s: Slots, k: nat): (w: Sweep)
    requires k <= |s| && HasEmpty(s)
    ensures |w.slots| == |s| && HasEmpty(w.slots)
  {
    if k == 0 then Sweep(s, [])
    else
      var w := SweepTo(s, k - 1);
      if MemP(w.slots, k - 1) == 0 then w
      else
        var t := w.slots[Find(w.slots, w.slots[k - 1].hash) := EMPTY];
        assert t[Find(w.slots, w.slots[k - 1].hash)].hash == 0;
        Sweep(t, w.released + [w.slots[k - 1].value.data])
  }

  /** Every entry records a block, and no block twice. */
  predicate DistinctBlocks(s: Slots) {
    forall i, j :: 0 <= i < |s| && 0 <= j < |s| && i != j && s[i].hash != 0 && s[j].hash != 0 ==>
                     s[i].value.data != s[j].value.data
  }

  /** A table whose entries each record a block of their own. Deletes may have left holes in its probe runs. */
  ghost predicate Records(s: Slots, m: Contents) {
    HasEmpty(s) && Lists(s, m) && DistinctBlocks(s)
  }

  /** Freed slots are blank and their blocks are released; all other slots are as before. */
  ghost predicate SweptTo(s: Slots, k: nat, w: Sweep) {
    && |w.slots| == |s| && k <= |s|
    && (forall q :: 0 <= q < |s| ==> w.slots[q] == s[q] || (q < k && w.slots[q] == EMPTY))
    && (forall q :: 0 <= q < |s| && s[q].hash != 0 ==> (w.slots[q] == EMPTY <==> s[q].value.data in w.released))
    && (forall a :: a in w.released ==> exists q :: Occupied(s, q) && s[q].value.data == a)
    && NoDuplicates(w.released)
  }

  lemma SweepFrees(s: Slots, k: nat, w: Sweep)
    requires SweptTo(s, k, w) && DistinctBlocks(s) && k < |s| && s[k].hash != 0 && w.slots[k] == s[k]
    ensures SweptTo(s, k + 1, Sweep(w.slots[k := EMPTY], w.released + [s[k].value.data]))
  {
    var r := w.released + [s[k].value.data];
    assert Occupied(s, k);
    assert forall a :: a in r <==> a in w.released || a == s[k].value.data;
  }

  /** One step: the slot is freed exactly when no hole has opened in its probe run. */
  lemma {:induction false} SweepStep(s: Slots, m: Contents, k: nat)
    requires Records(s, m) && k < |s|
    requires SweptTo(s, k, SweepTo(s, k))
    ensures SweptTo(s, k + 1, SweepTo(s, k + 1))
    ensures s[k].hash != 0 ==>
              (SweepTo(s, k + 1).slots[k] == EMPTY <==> Reachable(SweepTo(s, k).slots, k))
  {
    var w := SweepTo(s, k);
    assert w.slots[k] == s[k];
    if s[k].hash != 0 {
      assert s[k].hash in m;
      assert Distinct(w.slots);
      FoundIffReachable(w.slots, k);
      if Reachable(w.slots, k) {
        StoredIsFound(w.slots, k);
        assert MemP(w.slots, k) == s[k].value.data;
        SweepFrees(s, k, w);
      }
    }
  }

  lemma {:induction false} SweepInvariant(s: Slots, m: Contents, k: nat)
    requires Records(s, m) && k <= |s|
    ensures SweptTo(s, k, SweepTo(s, k))
  {
    assert HasEmpty(s);
    if k > 0 {
      hide *;
      var last := k - 1;
      SweepInvariant(s, m, last);
      SweepStep(s, m, last);
    }
  }

  /** Every entry, except possibly the one in slot 0, sits in its home slot. */
  predicate AtHomeButFirst(s: Slots) {
    forall j :: 0 < j < |s| && s[j].hash != 0 ==> Home(s[j].hash, |s|) == j
  }

  predicate ReleasesAll(s: Slots, released: seq<Addr>) {
    forall j :: 0 <= j < |s| && s[j].hash != 0 ==> s[j].value.data in released
  }

  /** All earlier entries are at home, or in slot 0, and were freed; slot `j` is displaced. */
  lemma DisplacedIsSkipped(s: Slots, m: Contents, j: nat)
    requires Records(s, m)
    requires 0 < j < |s| && s[j].hash != 0 && Home(s[j].hash, |s|) != j
    requires SweepTo(s, j).slots[j - 1] == EMPTY
    ensures s[j].value.data !in SweepTo(s, j + 1).released && SweepTo(s, j + 1).slots[j] != EMPTY
  {
    SweepInvariant(s, m, j);
    SweepInvariant(s, m, j + 1);
    SweepStep(s, m, j);
    assert SweepTo(s, j).slots[j] == s[j];
    assert SweepTo(s, j).slots[j - 1].hash == 0 && InRun(Home(s[j].hash, |s|), j - 1, j);
  }

  /** A slot passed by the sweep keeps its fate. */
  lemma {:induction false} FateIsKept(s: Slots, m: Contents, q: nat, j: nat, k: nat)
    requires Records(s, m) && q < j <= k <= |s|
    ensures SweepTo(s, k).slots[q] == SweepTo(s, j).slots[q]
    decreases k
  {
    assert HasEmpty(s);
    hide *;
    if j < k {
      var last := k - 1;
      FateIsKept(s, m, q, j, last);
      SweepTouchesOne(s, m, last, q);
    }
  }

  lemma SweepTouchesOne(s: Slots, m: Contents, k: nat, q: nat)
    requires Records(s, m) && k < |s| && q < |s| && q != k
    ensures SweepTo(s, k + 1).slots[q] == SweepTo(s, k).slots[q]
  {
    var w := SweepTo(s, k);
    SweepInvariant(s, m, k);
    if MemP(w.slots, k) != 0 {
      assert w.slots[k].hash != 0;
      assert Distinct(w.slots);
      FoundIffReachable(w.slots, k);
    }
  }

  /** No hole has opened in this entry's probe run when its turn comes. */
  predicate FindableAtTurn(s: Slots, k: nat)
    requires k < |s|
  {
    if k == 0 then Reachable(s, 0) else Home(s[k].hash, |s|) == k
  }

  /** A home entry, or the entry in slot 0, is freed when its turn comes. */
  lemma AtHomeIsFreed(s: Slots, m: Contents, k: nat)
    requires Records(s, m)
    requires Occupied(s, k) && FindableAtTurn(s, k)
    ensures SweepTo(s, k + 1).slots[k] == EMPTY
  {
    SweepInvariant(s, m, k);
    SweepStep(s, m, k);
    assert SweepTo(s, k).slots[k] == s[k];
    if k == 0 {
      assert SweepTo(s, 0).slots == s;
    }
  }

  /** Every entry outside slot 0 sits in its home slot, and an entry in slot 0 can be found. */
  predicate AllFindable(s: Slots) {
    AtHomeButFirst(s) && (|s| > 0 && s[0].hash != 0 ==> Reachable(s, 0))
  }

  /** As written, on a table at its initial size, destroy never releases a block twice and releases
      only recorded blocks; it releases them all if and only if every entry outside slot 0 sits in its
      home slot and no hole hides the one in slot 0. */
  lemma DestroyReleasesAllIffAtHome(s: Slots, m: Contents)
    requires Records(s, m)
    ensures var released := SweepTo(s, |s|).released;
            NoDuplicates(released) && OnlyRecorded(s, released) && (ReleasesAll(s, released) <==> AllFindable(s))
  {
    SweepInvariant(s, m, |s|);
    if AllFindable(s) {
      AtHomeReleasesAll(s, m);
    } else {
      var j := SomeIsKept(s, m);
      assert !ReleasesAll(s, SweepTo(s, |s|).released);
    }
  }

  lemma AtHomeReleasesAll(s: Slots, m: Contents)
    requires Records(s, m) && AllFindable(s)
    ensures ReleasesAll(s, SweepTo(s, |s|).released)
  {
    var released := SweepTo(s, |s|).released;
    forall j | 0 <= j < |s| && s[j].hash != 0
      ensures s[j].value.data in released
    {
      assert j > 0 ==> Home(s[j].hash, |s|) == j;
      AtHomeIsFreed(s, m, j);
      FateDecides(s, m, j);
    }
  }

  /** What happens to an entry at its turn decides whether its block is released in the end. */
  lemma FateDecides(s: Slots, m: Contents, j: nat)
    requires Records(s, m) && Occupied(s, j)
    ensures SweepTo(s, j + 1).slots[j] == EMPTY <==> s[j].value.data in SweepTo(s, |s|).released
  {
    hide SweepTo;
    FateIsKept(s, m, j, j + 1, |s|);
    SweepInvariant(s, m, |s|);
  }

  lemma SomeIsKept(s: Slots, m: Contents) returns (j: nat)
    requires Records(s, m) && !AllFindable(s)
    ensures Occupied(s, j) && s[j].value.data !in SweepTo(s, |s|).released
  {
    if s[0].hash != 0 && !Reachable(s, 0) {
      j := 0;
      SweepInvariant(s, m, 0);
      SweepStep(s, m, 0);
      FateDecides(s, m, 0);
    } else {
      j := FirstDisplaced(s);
      NeighbourIsEmpty(s, m, j);
      DisplacedIsSkipped(s, m, j);
      FateDecides(s, m, j);
    }
  }

  /** The slot before the first displaced entry is empty when that entry's turn comes: it was, or its entry has
      been freed. */
  lemma NeighbourIsEmpty(s: Slots, m: Contents, j: nat)
    requires Records(s, m) && 0 < j < |s| && (s[0].hash != 0 ==> Reachable(s, 0))
    requires forall q :: 0 < q < j && s[q].hash != 0 ==> Home(s[q].hash, |s|) == q
    ensures SweepTo(s, j).slots[j - 1] == EMPTY
  {
    if s[j - 1].hash != 0 {
      AtHomeIsFreed(s, m, j - 1);
    } else {
      SweepInvariant(s, m, j);
    }
  }

  lemma FirstDisplaced(s: Slots) returns (j: nat)
    requires !AtHomeButFirst(s)
    ensures 0 < j < |s| && s[j].hash != 0 && Home(s[j].hash, |s|) != j
    ensures forall q :: 0 < q < j && s[q].hash != 0 ==> Home(s[q].hash, |s|) == q
  {
    j := 1;
    while s[j].hash == 0 || Home(s[j].hash, |s|) == j
      invariant 1 <= j < |s|
      invariant forall q :: 0 < q < j && s[q].hash != 0 ==> Home(s[q].hash, |s|) == q
      decreases |s| - j
    {
      j := j + 1;
    }
  }

  /** Two blocks whose hashes share a home slot, other than the last: freeing the first opens a hole
      before the second, which is then skipped and never released. */
  lemma DestroySkipsABlock(n: nat, h: Hash, k: Hash, v: Handle, w: Handle)
    requires n > 2 && h != 0 && k != 0 && h != k && Home(h, n) == Home(k, n) < n - 1
    requires v.data != 0 && w.data != 0 && v.data != w.data
    ensures var s := HM.SharedHome(n, h, k, v, w);
            && Represents(s, map[h := v, k := w]) && DistinctBlocks(s)
            && !ReleasesAll(s, SweepTo(s, |s|).released)
  {
    HM.SharedHomeRepresents(n, h, k, v, w);
    SharedHomeIsDisplaced(n, h, k, v, w);
    hide *;
    DestroyReleasesAllIffAtHome(HM.SharedHome(n, h, k, v, w), map[h := v, k := w]);
  }

  lemma SharedHomeIsDisplaced(n: nat, h: Hash, k: Hash, v: Handle, w: Handle)
    requires n > 2 && h != 0 && k != 0 && Home(h, n) == Home(k, n) < n - 1 && v.data != w.data
    ensures DistinctBlocks(HM.SharedHome(n, h, k, v, w)) && !AtHomeButFirst(HM.SharedHome(n, h, k, v, w))
  {
    var s := HM.SharedHome(n, h, k, v, w);
    assert s[Home(h, n) + 1].hash == k;
  }

  lemma {:induction false} SweepSkips(s: Slots, i: nat, j: nat)
    requires HasEmpty(s) && i <= j <= |s|
    requires forall p :: i <= p < j ==> MemP(SweepTo(s, i).slots, p) == 0
    ensures SweepTo(s, j) == SweepTo(s, i)
    decreases j
  {
    hide *;
    if i < j {
      SweepSkips(s, i, j - 1);
      SweepStays(s, j - 1);
    }
  }

  lemma SweepStays(s: Slots, k: nat)
    requires HasEmpty(s) && k < |s| && MemP(SweepTo(s, k).slots, k) == 0
    ensures SweepTo(s, k + 1) == SweepTo(s, k)
  {
  }

  lemma SweepFreesHere(s: Slots, k: nat, pos: int)
    requires HasEmpty(s) && k < |s|
    requires MemP(SweepTo(s, k).slots, k) != 0
    requires ProbeEnds(SweepTo(s, k).slots, SweepTo(s, k).slots[k].hash, pos)
    ensures var w := SweepTo(s, k);
            SweepTo(s, k + 1) == Sweep(w.slots[pos := EMPTY], w.released + [w.slots[k].value.data])
  {
    var w := SweepTo(s, k);
    LookupAt(w.slots, w.slots[k].hash, pos);
  }

  /** `mem_p` of the value in slot `p`, through the table. */
  method ReadP(entries: array<Entry>, p: nat) returns (data: Addr)
    requires p < entries.Length && HasEmpty(entries[..])
    ensures data == MemP(entries[..], p)
  {
    if entries[p].value.data == 0 {
      return 0;
    }
    var pos := FindEntryPos(entries, entries[p].hash);
    LookupAt(entries[..], entries[p].hash, pos);
    return if entries[pos].hash == 0 then 0 else entries[pos].value.data;
  }

  /** `map_next_value_iter` from slot `from - 1`; the table may have become smaller than that. */
  method NextLive(entries: array<Entry>, from: nat) returns (pos: nat)
    requires HasEmpty(entries[..])
    ensures from <= pos && (from <= entries.Length ==> pos <= entries.Length)
    ensures forall p :: from <= p < pos && p < entries.Length ==> MemP(entries[..], p) == 0
    ensures pos < entries.Length ==> MemP(entries[..], pos) != 0
  {
    pos := from;
    while pos < entries.Length
      invariant from <= pos && (from <= entries.Length ==> pos <= entries.Length)
      invariant forall p :: from <= p < pos && p < entries.Length ==> MemP(entries[..], p) == 0
    {
      var data := ReadP(entries, pos);
      if data != 0 {
        return;
      }
      pos := pos + 1;
    }
  }

  /** Only recorded blocks have been released. */
  ghost predicate OnlyRecorded(s: Slots, released: seq<Addr>) {
    forall a :: a in released ==> exists q :: Occupied(s, q) && s[q].value.data == a
  }

  /** What the loop keeps, also when a delete shrinks the table under it: every entry left is one of those
      recorded at first, and has not been released; no block has been released twice. */
  ghost predicate Remaining(s: Slots, t: Slots, released: seq<Addr>) {
    && Distinct(t)
    && (forall q :: 0 <= q < |t| ==> t[q] == EMPTY || (t[q].hash != 0 && t[q] in s && t[q].value.data !in released))
    && OnlyRecorded(s, released) && NoDuplicates(released)
  }

  lemma RemainingStarts(s: Slots, m: Contents)
    requires Records(s, m)
    ensures Remaining(s, s, [])
  {
  }

  lemma RemainingPunch(s: Slots, m: Contents, t: Slots, released: seq<Addr>, k: nat)
    requires Records(s, m) && Remaining(s, t, released) && k < |t| && t[k].hash != 0
    ensures Remaining(s, t[k := EMPTY], released + [t[k].value.data])
  {
    var i :| 0 <= i < |s| && s[i] == t[k];
    assert Occupied(s, i);
    forall q | 0 <= q < |t| && q != k && t[q].hash != 0
      ensures t[q].value.data != t[k].value.data
    {
      var j :| 0 <= j < |s| && s[j] == t[q];
      assert i != j;
    }
    assert forall a :: a in released + [t[k].value.data] <==> a in released || a == t[k].value.data;
  }

  lemma RemainingRehash(s: Slots, t: Slots, released: seq<Addr>, n: nat)
    requires n > 0 && Remaining(s, t, released)
    ensures Remaining(s, HM.Rehash(t, n), released)
  {
    HM.RehashSlots(t, n);
    hide HM.Rehash;
  }

  /** A value that is still found sits in the slot its own hash leads to. */
  lemma LiveIsFound(s: Slots, t: Slots, released: seq<Addr>, k: nat)
    requires Remaining(s, t, released) && HasEmpty(t) && k < |t| && MemP(t, k) != 0
    ensures t[k].hash != 0 && Find(t, t[k].hash) == k
  {
    var pos := Find(t, t[k].hash);
    assert t[pos].hash == t[k].hash;
  }

  /** What `free` does to the map as written: the key goes, and the table may shrink. */
  lemma FreeKeeps(s: Slots, m: Contents, st: HM.State, initial: nat, released: seq<Addr>, k: nat, shrinkOk: bool)
    requires Records(s, m) && HM.Inv(st, initial) && Remaining(s, st.slots, released)
    requires HasEmpty(st.slots) && k < |st.slots| && MemP(st.slots, k) != 0
    ensures var after := HM.DeleteStep(st, initial, st.slots[k].hash, shrinkOk).0;
            && Remaining(s, after.slots, released + [st.slots[k].value.data])
            && |after.slots| <= |st.slots|
            && (|st.slots| == initial ==> after.slots == st.slots[k := EMPTY])
  {
    LiveIsFound(s, st.slots, released, k);
    RemainingPunch(s, m, st.slots, released, k);
    if |st.slots| >= 2 {
      RemainingRehash(s, st.slots[k := EMPTY], released + [st.slots[k].value.data], |st.slots| / 2);
    }
    hide Remaining, Records, HM.Rehash;
  }

  // ---------------------------------------------------------------- the loop, round by round

  /** A round of the loop, from slot `from` on: the first value that is still found is freed. */
  ghost predicate Frees(st: HM.State, initial: nat, shrinkOk: bool, from: nat, it: nat, block: Addr, after: HM.State) {
    && HasEmpty(st.slots) && from <= it < |st.slots|
    && MemP(st.slots, it) != 0 && (forall p :: from <= p < it ==> MemP(st.slots, p) == 0)
    && block == st.slots[it].value.data
    && after == HM.DeleteStep(st, initial, st.slots[it].hash, shrinkOk).0
  }

  /** The slot after the last one freed. */
  function From(its: seq<nat>): nat {
    if |its| == 0 then 0 else its[|its| - 1] + 1
  }

  /** The states the map goes through, the slots freed, and their blocks. */
  ghost predicate Rounds(states: seq<HM.State>, its: seq<nat>, released: seq<Addr>, initial: nat, shrinkOk: bool) {
    && |states| == |its| + 1 && |released| == |its|
    && forall k :: 0 <= k < |its| ==>
                     Frees(states[k], initial, shrinkOk, From(its[..k]), its[k], released[k], states[k + 1])
  }

  lemma RoundsSnoc(states: seq<HM.State>, its: seq<nat>, released: seq<Addr>, initial: nat, shrinkOk: bool,
                   it: nat, block: Addr, after: HM.State)
    requires Rounds(states, its, released, initial, shrinkOk)
    requires Frees(states[|its|], initial, shrinkOk, From(its), it, block, after)
    ensures Rounds(states + [after], its + [it], released + [block], initial, shrinkOk)
  {
    hide Frees, From;
    var states', its', released' := states + [after], its + [it], released + [block];
    forall k | 0 <= k <= |its|
      ensures Frees(states'[k], initial, shrinkOk, From(its'[..k]), its'[k], released'[k], states'[k + 1])
    {
      assert its'[..k] == if k == |its| then its else its[..k];
    }
  }

  /** The entry was lost when the table shrank from `s` to `t`: another entry took its home slot. */
  predicate Overwritten(s: Slots, t: Slots, e: Entry) {
    && 0 < |t| < |s| && e in s && e !in t
    && t[Home(e.hash, |t|)].hash != 0 && t[Home(e.hash, |t|)] in s
  }

  /** The entry's block has been released, or the entry is still there, or a shrink has overwritten it. */
  predicate Accounted(e: Entry, states: seq<HM.State>, released: seq<Addr>)
    requires |states| > 0
  {
    || e.value.data in released
    || e in states[|states| - 1].slots
    || exists k :: 0 <= k < |states| - 1 && Overwritten(states[k].slots, states[k + 1].slots, e)
  }

  predicate AllAccounted(s: Slots, states: seq<HM.State>, released: seq<Addr>)
    requires |states| > 0
  {
    forall j :: 0 <= j < |s| && s[j].hash != 0 ==> Accounted(s[j], states, released)
  }

  lemma FreeAccounts(st: HM.State, initial: nat, e: Entry, k: nat, shrinkOk: bool)
    requires HM.Inv(st, initial) && Distinct(st.slots) && HasEmpty(st.slots) && e in st.slots && e.hash != 0
    requires k < |st.slots| && st.slots[k].hash != 0 && Find(st.slots, st.slots[k].hash) == k
    ensures var after := HM.DeleteStep(st, initial, st.slots[k].hash, shrinkOk).0;
            e == st.slots[k] || e in after.slots || Overwritten(st.slots, after.slots, e)
  {
    var n, left := |st.slots|, st.slots[k := EMPTY];
    if e != st.slots[k] {
      var i :| 0 <= i < n && st.slots[i] == e;
      assert left[i] == e;
      if n >= 2 {
        var t := HM.Rehash(left, n / 2);
        HM.RehashSlots(left, n / 2);
        hide HM.Rehash;
        var q := Home(e.hash, n / 2);
        assert t[q] in left && t[q].hash != 0;
        assert forall x :: x in left && x.hash != 0 ==> x in st.slots;
      }
    }
  }

  lemma AccountedSnoc(s: Slots, states: seq<HM.State>, released: seq<Addr>, initial: nat, k: nat, shrinkOk: bool)
    requires |states| > 0 && AllAccounted(s, states, released)
    requires var st := states[|states| - 1];
             && HM.Inv(st, initial) && Distinct(st.slots) && HasEmpty(st.slots)
             && k < |st.slots| && st.slots[k].hash != 0 && Find(st.slots, st.slots[k].hash) == k
    ensures var st := states[|states| - 1];
            var after := HM.DeleteStep(st, initial, st.slots[k].hash, shrinkOk).0;
            AllAccounted(s, states + [after], released + [st.slots[k].value.data])
  {
    var n := |states| - 1;
    var st := states[n];
    var after := HM.DeleteStep(st, initial, st.slots[k].hash, shrinkOk).0;
    var states', released' := states + [after], released + [st.slots[k].value.data];
    forall j | 0 <= j < |s| && s[j].hash != 0
      ensures Accounted(s[j], states', released')
    {
      var e := s[j];
      assert Accounted(e, states, released);
      if e in st.slots {
        FreeAccounts(st, initial, e, k, shrinkOk);
        hide HM.Inv, HM.DeleteStep, Overwritten;
        assert states'[n] == st && states'[n + 1] == after;
      } else if i :| 0 <= i < n && Overwritten(states[i].slots, states[i + 1].slots, e) {
        hide Overwritten;
        assert states'[i] == states[i] && states'[i + 1] == states[i + 1];
      }
    }
  }

  // ---------------------------------------------------------------- when the loop is the sweep

  /** What the sweep would free leaves the table at a quarter load, or it cannot shrink at all. */
  ghost predicate NeverShrinks(start: HM.State, initial: nat, shrinkOk: bool)
    requires HasEmpty(start.slots)
  {
    var n, freed := |start.slots|, |SweepTo(start.slots, |start.slots|).released|;
    n <= initial || !shrinkOk || freed == 0 || start.count - freed >= n / 4
  }

  lemma {:induction false} SweepOnlyGrows(s: Slots, k: nat, l: nat)
    requires HasEmpty(s) && k <= l <= |s|
    ensures |SweepTo(s, k).released| <= |SweepTo(s, l).released|
    decreases l
  {
    hide *;
    if k < l {
      SweepOnlyGrows(s, k, l - 1);
      SweepAddsAtMostOne(s, l - 1);
    }
  }

  lemma SweepAddsAtMostOne(s: Slots, k: nat)
    requires HasEmpty(s) && k < |s|
    ensures |SweepTo(s, k).released| <= |SweepTo(s, k + 1).released|
  {
    hide Find, MemP;
  }

  /** As long as the table has not shrunk, the loop is the sweep, and has not come below quarter load. */
  ghost predicate InStep(start: HM.State, st: HM.State, released: seq<Addr>, initial: nat, shrinkOk: bool, it: nat)
    requires HasEmpty(start.slots)
  {
    && st.count == start.count - |released| && |st.slots| <= |start.slots|
    && (|st.slots| < |start.slots| ==> !NeverShrinks(start, initial, shrinkOk))
    && (|st.slots| == |start.slots| ==>
          && it <= |start.slots| && Sweep(st.slots, released) == SweepTo(start.slots, it)
          && (|released| > 0 && |start.slots| > initial && shrinkOk ==> st.count >= |start.slots| / 4))
  }

  /** A delete of the value under the iterator: count and size. */
  lemma FreeChanges(st: HM.State, initial: nat, it: nat, shrinkOk: bool)
    requires HM.Inv(st, initial) && HasEmpty(st.slots) && it < |st.slots| && st.slots[it].hash != 0
    requires Find(st.slots, st.slots[it].hash) == it
    ensures var after, n := HM.DeleteStep(st, initial, st.slots[it].hash, shrinkOk).0, |st.slots|;
            && after.count == st.count - 1
            && if st.count - 1 < n / 4 && n > initial && shrinkOk then |after.slots| < n
               else after.slots == st.slots[it := EMPTY]
  {
    assert initial >= 1;
    hide Find, HM.Rehash, HM.Inv;
  }

  /** While the table has its size, the loop goes on as the sweep does. */
  lemma SweepGoesOn(start: HM.State, st: HM.State, released: seq<Addr>, it: nat)
    requires HasEmpty(start.slots) && HasEmpty(st.slots)
    requires it < |start.slots| == |st.slots| && Sweep(st.slots, released) == SweepTo(start.slots, it)
    requires MemP(st.slots, it) != 0 && st.slots[it].hash != 0 && Find(st.slots, st.slots[it].hash) == it
    ensures Sweep(st.slots[it := EMPTY], released + [st.slots[it].value.data]) == SweepTo(start.slots, it + 1)
    ensures |released| + 1 <= |SweepTo(start.slots, |start.slots|).released|
  {
    hide SweepTo, MemP, HasEmpty;
    SweepFreesHere(start.slots, it, it);
    SweepOnlyGrows(start.slots, it + 1, |start.slots|);
  }

  lemma InStepFrees(start: HM.State, st: HM.State, released: seq<Addr>, initial: nat, shrinkOk: bool, it: nat)
    requires HasEmpty(start.slots) && HasEmpty(st.slots) && HM.Inv(st, initial)
    requires InStep(start, st, released, initial, shrinkOk, it)
    requires it < |st.slots| && MemP(st.slots, it) != 0 && st.slots[it].hash != 0
    requires Find(st.slots, st.slots[it].hash) == it
    ensures var after := HM.DeleteStep(st, initial, st.slots[it].hash, shrinkOk).0;
            && |after.slots| <= |st.slots|
            && InStep(start, after, released + [st.slots[it].value.data], initial, shrinkOk, it + 1)
  {
    hide SweepTo, MemP, HM.Inv, Find, HM.DeleteStep, HasEmpty;
    FreeChanges(st, initial, it, shrinkOk);
    if |st.slots| == |start.slots| {
      SweepGoesOn(start, st, released, it);
    }
  }

  lemma InStepEnds(start: HM.State, st: HM.State, released: seq<Addr>, initial: nat, shrinkOk: bool, it: nat)
    requires HasEmpty(start.slots) && it >= |st.slots| && InStep(start, st, released, initial, shrinkOk, it)
    ensures |st.slots| == |start.slots| <==> NeverShrinks(start, initial, shrinkOk)
    ensures NeverShrinks(start, initial, shrinkOk) ==> Sweep(st.slots, released) == SweepTo(start.slots, |start.slots|)
    ensures st.count == start.count - |released|
  {
    hide SweepTo;
    if |st.slots| == |start.slots| {
      assert it == |start.slots|;
    }
  }

  /** The state of the loop with all slots before `it` passed. */
  ghost predicate Looping(start: HM.State, states: seq<HM.State>, its: seq<nat>, released: seq<Addr>, initial: nat,
                          shrinkOk: bool, it: nat)
    requires |states| > 0 && HasEmpty(start.slots) && HasEmpty(states[|states| - 1].slots)
  {
    var st := states[|states| - 1];
    && |states| == |its| + 1 && states[0] == start && HM.Inv(st, initial)
    && Remaining(start.slots, st.slots, released)
    && Rounds(states, its, released, initial, shrinkOk)
    && AllAccounted(start.slots, states, released)
    && InStep(start, st, released, initial, shrinkOk, it)
    && From(its) <= it && forall p :: From(its) <= p < it && p < |st.slots| ==> MemP(st.slots, p) == 0
  }

  lemma LoopStarts(start: HM.State, m: Contents, initial: nat, shrinkOk: bool)
    requires Records(start.slots, m) && HM.Inv(start, initial)
    ensures HasEmpty(start.slots) && Looping(start, [start], [], [], initial, shrinkOk, 0)
  {
    RemainingStarts(start.slots, m);
    hide Records, Remaining, HM.Inv;
  }

  lemma LoopSkips(start: HM.State, states: seq<HM.State>, its: seq<nat>, released: seq<Addr>, initial: nat,
                  shrinkOk: bool, it: nat, next: nat)
    requires |states| > 0 && HasEmpty(start.slots) && HasEmpty(states[|states| - 1].slots)
    requires Looping(start, states, its, released, initial, shrinkOk, it)
    requires var t := states[|states| - 1].slots;
             && it <= next && (it <= |t| ==> next <= |t|)
             && forall p :: it <= p < next && p < |t| ==> MemP(t, p) == 0
    ensures Looping(start, states, its, released, initial, shrinkOk, next)
  {
    hide Remaining, SweepTo, MemP, HM.Inv, Rounds, AllAccounted, NeverShrinks, From;
    if |states[|states| - 1].slots| == |start.slots| {
      SweepSkips(start.slots, it, next);
    }
  }

  lemma LoopFrees(start: HM.State, m: Contents, states: seq<HM.State>, its: seq<nat>, released: seq<Addr>,
                  initial: nat, shrinkOk: bool, it: nat)
    requires |states| > 0 && HasEmpty(start.slots) && HasEmpty(states[|states| - 1].slots)
    requires Records(start.slots, m) && Looping(start, states, its, released, initial, shrinkOk, it)
    requires it < |states[|states| - 1].slots| && MemP(states[|states| - 1].slots, it) != 0
    ensures var st := states[|states| - 1];
            var after := HM.DeleteStep(st, initial, st.slots[it].hash, shrinkOk).0;
            && |after.slots| <= |st.slots| && HasEmpty(after.slots)
            && Looping(start, states + [after], its + [it], released + [st.slots[it].value.data], initial, shrinkOk,
                       it + 1)
  {
    var st := states[|states| - 1];
    var after := HM.DeleteStep(st, initial, st.slots[it].hash, shrinkOk).0;
    LoopingParts(start, states, its, released, initial, shrinkOk, it);
    hide *;
    HM.StepKeepsInv(st, initial, HM.Delete(st.slots[it].hash, shrinkOk));
    AfterDelete(st, initial, st.slots[it].hash, shrinkOk);
    LiveIsFound(start.slots, st.slots, released, it);
    RemainingDistinct(start.slots, st.slots, released);
    FreeKeeps(start.slots, m, st, initial, released, it, shrinkOk);
    AccountedSnoc(start.slots, states, released, initial, it, shrinkOk);
    InStepFrees(start, st, released, initial, shrinkOk, it);
    FreesHere(st, initial, shrinkOk, From(its), it);
    RoundsSnoc(states, its, released, initial, shrinkOk, it, st.slots[it].value.data, after);
    LoopingSnoc(start, states, after, its, released, st.slots[it].value.data, initial, shrinkOk, it);
  }

  lemma LoopingParts(start: HM.State, states: seq<HM.State>, its: seq<nat>, released: seq<Addr>, initial: nat,
                     shrinkOk: bool, it: nat)
    requires |states| > 0 && HasEmpty(start.slots) && HasEmpty(states[|states| - 1].slots)
    requires Looping(start, states, its, released, initial, shrinkOk, it)
    ensures var st := states[|states| - 1];
            && |states| == |its| + 1 && states[0] == start && HM.Inv(st, initial)
            && Remaining(start.slots, st.slots, released) && Rounds(states, its, released, initial, shrinkOk)
            && AllAccounted(start.slots, states, released)
            && InStep(start, st, released, initial, shrinkOk, it)
            && From(its) <= it && forall p :: From(its) <= p < it && p < |st.slots| ==> MemP(st.slots, p) == 0
  {
  }

  lemma AfterDelete(st: HM.State, initial: nat, h: Hash, shrinkOk: bool)
    requires HasEmpty(st.slots) && HM.Inv(HM.Step(st, initial, HM.Delete(h, shrinkOk)).0, initial)
    ensures var after := HM.DeleteStep(st, initial, h, shrinkOk).0;
            HM.Inv(after, initial) && HasEmpty(after.slots)
  {
    HM.InvHasEmpty(HM.DeleteStep(st, initial, h, shrinkOk).0, initial);
  }

  lemma FreesHere(st: HM.State, initial: nat, shrinkOk: bool, from: nat, it: nat)
    requires HasEmpty(st.slots) && from <= it < |st.slots| && MemP(st.slots, it) != 0
    requires forall p :: from <= p < it && p < |st.slots| ==> MemP(st.slots, p) == 0
    ensures Frees(st, initial, shrinkOk, from, it, st.slots[it].value.data,
                  HM.DeleteStep(st, initial, st.slots[it].hash, shrinkOk).0)
  {
    hide MemP, HM.DeleteStep, HasEmpty;
  }

  lemma LoopingSnoc(start: HM.State, states: seq<HM.State>, after: HM.State, its: seq<nat>, released: seq<Addr>,
                    block: Addr, initial: nat, shrinkOk: bool, it: nat)
    requires |states| == |its| + 1 && states[0] == start && HasEmpty(start.slots) && HasEmpty(after.slots)
    requires HM.Inv(after, initial) && Remaining(start.slots, after.slots, released + [block])
    requires Rounds(states + [after], its + [it], released + [block], initial, shrinkOk)
    requires AllAccounted(start.slots, states + [after], released + [block])
    requires InStep(start, after, released + [block], initial, shrinkOk, it + 1)
    ensures Looping(start, states + [after], its + [it], released + [block], initial, shrinkOk, it + 1)
  {
    hide Remaining, HM.Inv, AllAccounted, InStep, Rounds, HasEmpty, MemP;
  }

  lemma RemainingDistinct(s: Slots, t: Slots, released: seq<Addr>)
    requires Remaining(s, t, released)
    ensures Distinct(t)
  {
  }

  /** What the loop leaves behind. */
  ghost predicate Destroyed(start: HM.State, states: seq<HM.State>, its: seq<nat>, released: seq<Addr>, initial: nat,
                            shrinkOk: bool)
    requires HasEmpty(start.slots)
  {
    && |states| == |its| + 1 && states[0] == start && HasEmpty(states[|its|].slots)
    && Rounds(states, its, released, initial, shrinkOk)
    && (forall p :: From(its) <= p < |states[|its|].slots| ==> MemP(states[|its|].slots, p) == 0)
    && AllAccounted(start.slots, states, released)
    && Remaining(start.slots, states[|its|].slots, released)
    && states[|its|].count == start.count - |released|
    && (|states[|its|].slots| == |start.slots| <==> NeverShrinks(start, initial, shrinkOk))
    && (NeverShrinks(start, initial, shrinkOk) ==>
          Sweep(states[|its|].slots, released) == SweepTo(start.slots, |start.slots|))
  }

  lemma LoopEnds(start: HM.State, states: seq<HM.State>, its: seq<nat>, released: seq<Addr>, initial: nat,
                 shrinkOk: bool, it: nat)
    requires |states| > 0 && HasEmpty(start.slots) && HasEmpty(states[|states| - 1].slots)
    requires Looping(start, states, its, released, initial, shrinkOk, it) && it >= |states[|states| - 1].slots|
    ensures Destroyed(start, states, its, released, initial, shrinkOk)
  {
    var st := states[|states| - 1];
    InStepEnds(start, st, released, initial, shrinkOk, it);
    assert |states| == |its| + 1;
    hide Remaining, HasEmpty, SweepTo, Rounds, AllAccounted, NeverShrinks, InStep, MemP, HM.Inv, From;
  }

  /** A value that can be found is met by the first round, or an earlier one is. */
  lemma FirstIsReleased(start: HM.State, m: Contents, states: seq<HM.State>, its: seq<nat>, released: seq<Addr>,
                        initial: nat, shrinkOk: bool, j: nat)
    requires Records(start.slots, m) && HasEmpty(start.slots)
    requires Destroyed(start, states, its, released, initial, shrinkOk)
    requires Occupied(start.slots, j) && Reachable(start.slots, j)
    ensures |its| > 0 && its[0] <= j && |released| > 0 && released[0] == start.slots[its[0]].value.data
  {
    LiveIfReachable(start.slots, m, start.slots, [], j);
    hide Records, Remaining, MemP, HM.DeleteStep, NeverShrinks, AllAccounted, SweepTo, Reachable;
    if |its| > 0 {
      assert Frees(states[0], initial, shrinkOk, From(its[..0]), its[0], released[0], states[1]);
    }
  }

  lemma LiveIfReachable(s: Slots, m: Contents, t: Slots, released: seq<Addr>, j: nat)
    requires Records(s, m) && (t == s || Remaining(s, t, released)) && HasEmpty(t)
    requires Occupied(t, j) && Reachable(t, j)
    ensures MemP(t, j) == t[j].value.data != 0
  {
    assert t[j] in s;
    StoredIsFound(t, j);
  }

  /** And what is left at or after the iterator cannot be found. */
  lemma NothingLeftAhead(start: HM.State, m: Contents, states: seq<HM.State>, its: seq<nat>, released: seq<Addr>,
                         initial: nat, shrinkOk: bool, p: nat)
    requires Records(start.slots, m) && HasEmpty(start.slots)
    requires Destroyed(start, states, its, released, initial, shrinkOk)
    requires From(its) <= p && Occupied(states[|its|].slots, p)
    ensures !Reachable(states[|its|].slots, p)
  {
    var t := states[|its|].slots;
    assert MemP(t, p) == 0;
    hide Records, Remaining, MemP, Rounds, NeverShrinks, AllAccounted, SweepTo, Reachable;
    if Reachable(t, p) {
      LiveIfReachable(start.slots, m, t, released, p);
      assert false;
    }
  }

  lemma RemainingEnds(s: Slots, t: Slots, released: seq<Addr>)
    requires Remaining(s, t, released)
    ensures NoDuplicates(released) && OnlyRecorded(s, released)
  {
  }

  /** Free the block under the iterator: its key goes from the map, and the block is released. */
  method FreeUnder(mp: HM.Map, it: nat, before: seq<Addr>, shrinkOk: bool, ghost start: HM.State, ghost m: Contents,
                   ghost states: seq<HM.State>, ghost its: seq<nat>)
    returns (released: seq<Addr>)
    requires mp.Valid() && Records(start.slots, m) && HasEmpty(start.slots) && HasEmpty(mp.entries[..])
    requires |states| > 0 && states[|states| - 1] == mp.Abs()
    requires Looping(start, states, its, before, mp.initialSize, shrinkOk, it)
    requires it < mp.entries.Length && MemP(mp.entries[..], it) != 0
    modifies mp, mp.entries
    ensures mp.Valid() && (mp.entries == old(mp.entries) || fresh(mp.entries)) && HasEmpty(mp.entries[..])
    ensures mp.tableSize == mp.entries.Length <= old(mp.entries.Length)
    ensures Looping(start, states + [mp.Abs()], its + [it], released, mp.initialSize, shrinkOk, it + 1)
    ensures released == before + [old(mp.entries[it].value.data)]
    ensures HasEmpty(old(mp.Abs()).slots)
    ensures mp.Abs() == HM.DeleteStep(old(mp.Abs()), mp.initialSize, old(mp.entries[it].hash), shrinkOk).0
  {
    LoopFrees(start, m, states, its, before, mp.initialSize, shrinkOk, it);
    hide Looping, Records, HM.Inv, HM.DeleteStep, MemP;
    released := before + [mp.entries[it].value.data];
    var deleted := mp.Delete(mp.entries[it].hash, shrinkOk);
    HM.InvHasEmpty(mp.Abs(), mp.initialSize);
  }

  /** The loop of `memtbl_destroy`: free the value under the iterator, which deletes its key from the map being
      iterated, and move on. */
  method SweepLoop(mp: HM.Map, shrinkOk: bool, ghost start: HM.State, ghost m: Contents)
    returns (released: seq<Addr>, ghost states: seq<HM.State>, ghost its: seq<nat>, ghost it: nat)
    requires mp.Valid() && Records(start.slots, m) && HasEmpty(start.slots) && HasEmpty(mp.entries[..])
    requires mp.tableSize == mp.entries.Length && start == mp.Abs()
    requires Looping(start, [start], [], [], mp.initialSize, shrinkOk, 0)
    modifies mp, mp.entries
    ensures mp.tableSize == mp.entries.Length
    ensures |states| > 0 && states[|states| - 1] == mp.Abs() && HasEmpty(mp.Abs().slots)
    ensures it >= mp.entries.Length && Looping(start, states, its, released, mp.initialSize, shrinkOk, it)
  {
    hide Looping, Records, HM.Inv, HM.DeleteStep, MemP, HasEmpty;
    released, states, its := [], [start], [];
    var pos := NextLive(mp.entries, 0);
    LoopSkips(start, states, its, released, mp.initialSize, shrinkOk, 0, pos);
    while pos < mp.tableSize
      invariant mp.Valid() && HasEmpty(mp.entries[..]) && (mp.entries == old(mp.entries) || fresh(mp.entries))
      invariant mp.tableSize == mp.entries.Length && |states| > 0 && states[|states| - 1] == mp.Abs()
      invariant Looping(start, states, its, released, mp.initialSize, shrinkOk, pos)
      invariant pos < mp.tableSize ==> MemP(mp.entries[..], pos) != 0
      decreases mp.tableSize - pos
    {
      released := FreeUnder(mp, pos, released, shrinkOk, start, m, states, its);
      states, its := states + [mp.Abs()], its + [pos];
      var next := NextLive(mp.entries, pos + 1);
      LoopSkips(start, states, its, released, mp.initialSize, shrinkOk, pos + 1, next);
      pos := next;
    }
    it := pos;
  }

  /** What it comes to, on any table. The loop releases only recorded blocks, and none twice. The table keeps its
      size if and only if it cannot shrink or what the sweep frees leaves it at a quarter load; then the loop
      computes the sweep. Whatever happens, the first value that can be found is released, nothing that can be
      found is left at or after the last slot freed, and every recorded block has been released, or is still
      there, or was overwritten by a shrink. */
  lemma WhatIsDestroyed(start: HM.State, m: Contents, states: seq<HM.State>, its: seq<nat>, released: seq<Addr>,
                        initial: nat, shrinkOk: bool)
    requires Records(start.slots, m) && HasEmpty(start.slots)
    requires Destroyed(start, states, its, released, initial, shrinkOk)
    ensures |states| == |its| + 1 && states[|its|].count == start.count - |released|
    ensures var s, t, freed := start.slots, states[|its|].slots, |SweepTo(start.slots, |start.slots|).released|;
            && (|t| == |s| <==> |s| <= initial || !shrinkOk || freed == 0 || start.count - freed >= |s| / 4)
            && (|t| == |s| ==> Sweep(t, released) == SweepTo(s, |s|))
            && NoDuplicates(released) && OnlyRecorded(s, released)
            && (forall j :: Occupied(s, j) && Reachable(s, j) ==>
                              |its| > 0 && its[0] <= j && |released| > 0 && released[0] == s[its[0]].value.data)
            && (forall p :: From(its) <= p && Occupied(t, p) ==> !Reachable(t, p))
            && (forall j :: Occupied(s, j) ==>
                              || s[j].value.data in released || s[j] in t
                              || exists k :: 0 <= k < |its| && Overwritten(states[k].slots, states[k + 1].slots, s[j]))
  {
    var s, t := start.slots, states[|its|].slots;
    RemainingEnds(s, t, released);
    hide Records, MemP, HasEmpty, Remaining, Rounds, Reachable, SweepTo, Overwritten, OnlyRecorded, NoDuplicates, From;
    forall j | Occupied(s, j) && Reachable(s, j)
      ensures |its| > 0 && its[0] <= j && |released| > 0 && released[0] == s[its[0]].value.data
    {
      FirstIsReleased(start, m, states, its, released, initial, shrinkOk, j);
    }
    forall p | From(its) <= p && Occupied(t, p)
      ensures !Reachable(t, p)
    {
      NothingLeftAhead(start, m, states, its, released, initial, shrinkOk, p);
    }
    forall j | Occupied(s, j)
      ensures || s[j].value.data in released || s[j] in t
              || exists k :: 0 <= k < |its| && Overwritten(states[k].slots, states[k + 1].slots, s[j])
    {
      assert Accounted(s[j], states, released);
    }
  }

  /** The loop as written, told round by round by `states` and `its`; `WhatIsDestroyed` says what it comes to. */
  method DestroyAsWritten(mp: HM.Map, shrinkOk: bool, ghost m: Contents)
    returns (released: seq<Addr>, ghost states: seq<HM.State>, ghost its: seq<nat>)
    requires mp.Valid() && Records(mp.entries[..], m)
    modifies mp, mp.entries
    ensures HasEmpty(old(mp.Abs()).slots) && Destroyed(old(mp.Abs()), states, its, released, mp.initialSize, shrinkOk)
    ensures |states| == |its| + 1 && states[|its|] == mp.Abs() && mp.entryCount == old(mp.entryCount) - |released|
    ensures NoDuplicates(released) && OnlyRecorded(old(mp.entries[..]), released)
    ensures var s, n := old(mp.entries[..]), old(mp.tableSize);
            var freed := |SweepTo(s, |s|).released|;
            && (mp.tableSize == n <==>
                  n <= mp.initialSize || !shrinkOk || freed == 0 || old(mp.entryCount) - freed >= n / 4)
            && (mp.tableSize == n ==> Sweep(mp.entries[..], released) == SweepTo(s, |s|))
  {
    hide Looping, Records, HM.Inv, HasEmpty, SweepTo, OnlyRecorded, NoDuplicates, Destroyed;
    ghost var start := mp.Abs();
    assert mp.tableSize == |start.slots|;
    LoopStarts(start, m, mp.initialSize, shrinkOk);
    ghost var it;
    released, states, its, it := SweepLoop(mp, shrinkOk, start, m);
    LoopEnds(start, states, its, released, mp.initialSize, shrinkOk, it);
    WhatIsDestroyed(start, m, states, its, released, mp.initialSize, shrinkOk);
  }
}
