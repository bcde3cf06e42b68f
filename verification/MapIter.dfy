/** The value iterator of src/datastruct/map.c: slots in increasing order, skipping those whose value
    is the null handle. */
module MapIter {
  import opened Table
  import HM = HashMap

  /** An iterator is done when its value is the null handle. */
  datatype Iter = Iter(pos: nat, value: Handle) {
    predicate Done() {
      value.data == 0
    }
  }

  const DONE := Iter(0, NULL_HANDLE)

  /** The slots that carry a value, in increasing order. */
  function ValuedSlots(s: Slots): seq<nat> {
    if |s| == 0 then []
    else ValuedSlots(s[..|s| - 1]) + (if s[|s| - 1].value.data != 0 then [|s| - 1] else [])
  }

  lemma {:induction false} ValuedSlotsCarry(s: Slots)
    ensures forall i :: 0 <= i < |ValuedSlots(s)| ==> ValuedSlots(s)[i] < |s| && s[ValuedSlots(s)[i]].value.data != 0
  {
    if |s| > 0 {
      ValuedSlotsCarry(s[..|s| - 1]);
    }
  }

  method NextValueIter(entries: array<Entry>, it: Iter) returns (next: Iter)
    ensures next.Done() ==> next == DONE && forall p :: it.pos < p < entries.Length ==> entries[p].value.data == 0
    ensures !next.Done() ==> it.pos < next.pos < entries.Length && next.value == entries[next.pos].value
    ensures !next.Done() ==> forall p :: it.pos < p < next.pos ==> entries[p].value.data == 0
  {
    var pos := it.pos + 1;
    while pos < entries.Length && entries[pos].value.data == 0
      invariant it.pos < pos
      invariant forall p :: it.pos < p < pos && p < entries.Length ==> entries[p].value.data == 0
    {
      pos := pos + 1;
    }
    if pos >= entries.Length {
      return DONE;
    }
    return Iter(pos, entries[pos].value);
  }

  method FirstValueIter(entries: array<Entry>) returns (first: Iter)
    requires entries.Length > 0
    ensures first.Done() ==> forall p :: 0 <= p < entries.Length ==> entries[p].value.data == 0
    ensures !first.Done() ==> first.pos < entries.Length && first.value == entries[first.pos].value
    ensures !first.Done() ==> forall p :: 0 <= p < first.pos ==> entries[p].value.data == 0
  {
    first := Iter(0, entries[0].value);
    if entries[0].value.data == 0 {
      first := NextValueIter(entries, first);
    }
  }

  lemma {:induction false} NoValuesBetween(s: Slots, i: nat, j: nat)
    requires i <= j <= |s| && forall p :: i <= p < j ==> s[p].value.data == 0
    ensures ValuedSlots(s[..j]) == ValuedSlots(s[..i])
    decreases j
  {
    if i < j {
      assert s[..j][..j - 1] == s[..j - 1];
      NoValuesBetween(s, i, j - 1);
    }
  }

  lemma ValuedSlotsSnoc(s: Slots, i: nat)
    requires i < |s| && s[i].value.data != 0
    ensures ValuedSlots(s[..i + 1]) == ValuedSlots(s[..i]) + [i]
  {
    assert s[..i + 1][..i] == s[..i];
  }

  /** The iteration loop of the map's clients: it visits exactly the slots that carry a value. */
  method VisitAll(entries: array<Entry>) returns (visited: seq<nat>)
    requires entries.Length > 0
    ensures visited == ValuedSlots(entries[..])
  {
    var it := FirstValueIter(entries);
    visited := [];
    ghost var from := 0;
    NoValuesBetween(entries[..], 0, if it.Done() then entries.Length else it.pos);
    while !it.Done()
      invariant 0 <= from <= entries.Length
      invariant !it.Done() ==> from <= it.pos < entries.Length && entries[it.pos].value.data != 0
      invariant visited == ValuedSlots(entries[..][..if it.Done() then entries.Length else it.pos])
      decreases if it.Done() then 0 else entries.Length - it.pos
    {
      visited := visited + [it.pos];
      ValuedSlotsSnoc(entries[..], it.pos);
      from := it.pos + 1;
      it := NextValueIter(entries, it);
      NoValuesBetween(entries[..], from, if it.Done() then entries.Length else it.pos);
    }
    assert entries[..][..entries.Length] == entries[..];
  }

  predicate Increasing(a: seq<nat>) {
    forall i, j :: 0 <= i < j < |a| ==> a[i] < a[j]
  }

  lemma OccupiedSnoc(s: Slots)
    requires |s| > 0
    ensures forall j :: Occupied(s, j) <==> Occupied(s[..|s| - 1], j) || (j == |s| - 1 && s[|s| - 1].hash != 0)
  {
  }

  lemma IncreasingSnoc(a: seq<nat>, x: nat)
    requires Increasing(a) && forall i :: 0 <= i < |a| ==> a[i] < x
    ensures Increasing(a + [x]) && forall y :: y in a + [x] <==> y in a || y == x
  {
  }

  /** Slots are empty exactly when they carry the null handle. */
  predicate Tidy(s: Slots) {
    forall j :: 0 <= j < |s| ==> (s[j].hash == 0 <==> s[j].value.data == 0)
  }

  /** On a tidy table the slots visited are the occupied ones, each once, in increasing order. */
  lemma {:induction false} VisitsOccupiedOnce(s: Slots)
    requires Tidy(s)
    ensures Increasing(ValuedSlots(s))
    ensures forall j :: j in ValuedSlots(s) <==> Occupied(s, j)
    ensures |ValuedSlots(s)| == Occupancy(s)
  {
    if |s| > 0 {
      var s' := s[..|s| - 1];
      var v := ValuedSlots(s');
      VisitsOccupiedOnce(s');
      OccupiedSnoc(s);
      forall i | 0 <= i < |v|
        ensures v[i] < |s| - 1
      {
        assert v[i] in v && Occupied(s', v[i]);
      }
      hide Increasing, Occupied;
      if s[|s| - 1].value.data != 0 {
        IncreasingSnoc(v, |s| - 1);
      }
    }
  }

  /** `visited` meets every key of `m` exactly once, at a slot with its value. */
  predicate VisitsKeysOnce(s: Slots, m: Contents, visited: seq<nat>) {
    && (forall i :: 0 <= i < |visited| ==> visited[i] < |s|)
    && (forall i :: 0 <= i < |visited| ==> s[visited[i]].hash in m && m[s[visited[i]].hash] == s[visited[i]].value)
    && (forall i, j :: 0 <= i < j < |visited| ==> s[visited[i]].hash != s[visited[j]].hash)
    && (forall h :: h in m ==> exists i :: 0 <= i < |visited| && s[visited[i]].hash == h)
  }

  /** Iterating over a table yields exactly the bag of values it stores. */
  lemma VisitsContents(s: Slots, m: Contents)
    requires Lists(s, m)
    ensures VisitsKeysOnce(s, m, ValuedSlots(s))
  {
    var visited := ValuedSlots(s);
    VisitsOccupiedOnce(s);
    forall i | 0 <= i < |visited|
      ensures visited[i] < |s| && s[visited[i]].hash in m && m[s[visited[i]].hash] == s[visited[i]].value
    {
      assert visited[i] in visited && Occupied(s, visited[i]);
    }
    forall i, j | 0 <= i < j < |visited|
      ensures s[visited[i]].hash != s[visited[j]].hash
    {
      assert visited[i] in visited && Occupied(s, visited[i]) && visited[i] != visited[j];
    }
    forall h | h in m
      ensures exists i :: 0 <= i < |visited| && s[visited[i]].hash == h
    {
      var j :| 0 <= j < |s| && s[j].hash == h;
      assert j in visited;
      var i :| 0 <= i < |visited| && visited[i] == j;
      assert s[visited[i]].hash == h;
    }
  }

  /** Only a set of a valid handle under hash zero, without growth, makes an untidy table: it leaves a
      value in an empty slot. */
  lemma StepKeepsTidy(st: HM.State, initial: nat, op: HM.Op)
    requires HM.Inv(st, initial) && Tidy(st.slots)
    ensures HasEmpty(st.slots)
    ensures Tidy(HM.Step(st, initial, op).0.slots) <==>
            !(op.Set? && op.h == 0 && op.v.data != 0 && !HM.Grows(st, op.h))
  {
    HM.InvHasEmpty(st, initial);
    var n := |st.slots|;
    match op
    case Get(_) =>
    case Set(h, v, _) =>
      RehashTidy(st.slots, 2 * n);
      var pos := Find(st.slots, h);
      assert st.slots[pos := Entry(h, v)][pos] == Entry(h, v);
    case Delete(h, _) =>
      if n >= 2 {
        RehashTidy(st.slots[Find(st.slots, h) := EMPTY], n / 2);
      }
  }

  lemma RehashTidy(s: Slots, n: nat)
    requires n > 0 && Tidy(s)
    ensures Tidy(HM.Rehash(s, n))
  {
    forall q | 0 <= q < n
      ensures var e := HM.Rehash(s, n)[q]; e.hash == 0 <==> e.value.data == 0
    {
      HM.RehashSlot(s, n, q);
    }
  }

  /** After any run on nonzero hashes the iterator yields exactly the stored entries. */
  lemma {:induction false} RunKeepsTidy(st: HM.State, initial: nat, ops: seq<HM.Op>)
    requires HM.Inv(st, initial) && Tidy(st.slots)
    requires forall i :: 0 <= i < |ops| && ops[i].Set? ==> ops[i].h != 0
    ensures Tidy(HM.Run(st, initial, ops).slots)
    decreases |ops|
  {
    if |ops| > 0 {
      HM.StepKeepsInv(st, initial, ops[0]);
      StepKeepsTidy(st, initial, ops[0]);
      RunKeepsTidy(HM.Step(st, initial, ops[0]).0, initial, ops[1..]);
    }
  }
}
