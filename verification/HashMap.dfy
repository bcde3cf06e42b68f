/** The hash map as it is written in src/datastruct/map.c: open addressing with linear probing,
    doubling above half load and halving below quarter load. `allocOk` says whether the allocation
    inside a resize succeeds; the initial table size is a parameter. */
module HashMap {
  import opened Doubling
  import opened Sequences
  import opened Table

  // ---------------------------------------------------------------- resizing: every entry to its home, last one wins

  /** The new table of `resize_entries_table`: old entries in slot order, each written to its home. */
  function Rehash(s: Slots, n: nat): (t: Slots)
    requires n > 0
    ensures |t| == n
  {
    if |s| == 0 then Blank(n)
    else
      var t := Rehash(s[..|s| - 1], n);
      var e := s[|s| - 1];
      if e.hash == 0 then t else t[Home(e.hash, n) := e]
  }

  /** The highest slot whose entry has home `q` in a table of size `n`, or -1 when there is none. */
  function LastOfClass(s: Slots, n: nat, q: nat): (i: int)
    requires n > 0
    ensures -1 <= i < |s|
    ensures i >= 0 ==> s[i].hash != 0 && Home(s[i].hash, n) == q
    ensures forall j :: i < j < |s| && s[j].hash != 0 ==> Home(s[j].hash, n) != q
  {
    if |s| == 0 then -1
    else
      var e := s[|s| - 1];
      if e.hash != 0 && Home(e.hash, n) == q then |s| - 1
      else
        var i := LastOfClass(s[..|s| - 1], n, q);
        assert forall j :: 0 <= j < |s| - 1 ==> s[..|s| - 1][j] == s[j];
        i
  }

  /** Occupied slots have pairwise different homes in a table of size `n`. */
  predicate SpreadApart(s: Slots, n: nat)
    requires n > 0
  {
    forall i, j :: 0 <= i < j < |s| && s[i].hash != 0 && s[j].hash != 0 ==> Home(s[i].hash, n) != Home(s[j].hash, n)
  }

  /** After a resize every slot holds the highest-indexed old entry of its residue class, or nothing. */
  lemma {:induction false} RehashSlot(s: Slots, n: nat, q: nat)
    requires n > 0 && q < n
    ensures Rehash(s, n)[q] == if LastOfClass(s, n, q) < 0 then EMPTY else s[LastOfClass(s, n, q)]
  {
    if |s| > 0 {
      RehashSlot(s[..|s| - 1], n, q);
    }
  }

  lemma RehashSlots(s: Slots, n: nat)
    requires n > 0
    ensures AllAtHome(Rehash(s, n))
    ensures forall q :: 0 <= q < n ==> Rehash(s, n)[q] == EMPTY || (Rehash(s, n)[q].hash != 0 && Rehash(s, n)[q] in s)
    ensures forall i :: 0 <= i < |s| && s[i].hash != 0 ==> Rehash(s, n)[Home(s[i].hash, n)].hash != 0
  {
    forall q | 0 <= q < n
      ensures Rehash(s, n)[q] == EMPTY ||
              (Rehash(s, n)[q].hash != 0 && Home(Rehash(s, n)[q].hash, n) == q && Rehash(s, n)[q] in s)
      ensures forall i :: 0 <= i < |s| && s[i].hash != 0 && Home(s[i].hash, n) == q ==> Rehash(s, n)[q].hash != 0
    {
      RehashSlot(s, n, q);
    }
  }

  /** A resize loses no entry if and only if the stored hashes have different homes in the new table. */
  lemma {:induction false} RehashOccupancy(s: Slots, n: nat)
    requires n > 0
    ensures Occupancy(Rehash(s, n)) <= Occupancy(s)
    ensures Occupancy(Rehash(s, n)) == Occupancy(s) <==> SpreadApart(s, n)
  {
    if |s| == 0 {
      BlankIsVacant(Blank(n));
    } else {
      var s', e := s[..|s| - 1], s[|s| - 1];
      RehashOccupancy(s', n);
      SpreadApartSnoc(s, n);
      if e.hash != 0 {
        OccupancyUpdate(Rehash(s', n), Home(e.hash, n), e);
        RehashSlot(s', n, Home(e.hash, n));
      }
    }
  }

  lemma SpreadApartSnoc(s: Slots, n: nat)
    requires n > 0 && |s| > 0
    ensures var s', e := s[..|s| - 1], s[|s| - 1];
            SpreadApart(s, n) <==> SpreadApart(s', n) && (e.hash != 0 ==> LastOfClass(s', n, Home(e.hash, n)) < 0)
  {
    var s', e := s[..|s| - 1], s[|s| - 1];
    assert forall j :: 0 <= j < |s| - 1 ==> s'[j] == s[j];
    if e.hash != 0 {
      var i := LastOfClass(s', n, Home(e.hash, n));
      assert i >= 0 ==> s[i].hash != 0 && Home(s[i].hash, n) == Home(s[|s| - 1].hash, n);
    }
  }

  /** Every survivor of a resize sits in its home slot and is found there with its value intact. */
  lemma SurvivorsAreFound(s: Slots, n: nat, q: nat)
    requires Occupancy(s) < n && Occupied(Rehash(s, n), q)
    ensures HasEmpty(Rehash(s, n))
    ensures var e := Rehash(s, n)[q];
            && e in s && Home(e.hash, n) == q && Find(Rehash(s, n), e.hash) == q
            && Lookup(Rehash(s, n), e.hash) == e.value
  {
    RehashWellFormed(s, n);
    StoredIsFound(Rehash(s, n), q);
    RehashSlots(s, n);
  }

  lemma RehashWellFormed(s: Slots, n: nat)
    requires Occupancy(s) < n
    ensures WellFormed(Rehash(s, n))
  {
    RehashOccupancy(s, n);
    RoomMeansEmpty(Rehash(s, n));
    RehashSlots(s, n);
    AtHomeWellFormed(Rehash(s, n));
  }

  /** A resize of a table that lists `m` represents `m` again if and only if the stored hashes
      spread apart; otherwise some lookup has gone wrong. */
  lemma RehashRepresents(s: Slots, m: Contents, n: nat)
    requires Lists(s, m) && Occupancy(s) < n
    ensures SpreadApart(s, n) ==> Represents(Rehash(s, n), m)
    ensures SpreadApart(s, n) <==> Agrees(Rehash(s, n), m)
  {
    var t := Rehash(s, n);
    RehashWellFormed(s, n);
    RehashSlots(s, n);
    if SpreadApart(s, n) {
      forall k | k in m
        ensures Stored(t, k)
      {
        RehashKeeps(s, n, k);
      }
      RepresentsAgrees(t, m);
    } else {
      var i, j :| 0 <= i < j < |s| && s[i].hash != 0 && s[j].hash != 0 && Home(s[i].hash, n) == Home(s[j].hash, n);
      RehashCollision(s, m, n, i, j);
    }
  }

  lemma RehashKeeps(s: Slots, n: nat, k: Hash)
    requires n > 0 && SpreadApart(s, n) && k != 0 && Stored(s, k)
    ensures Stored(Rehash(s, n), k)
  {
    var i :| 0 <= i < |s| && s[i].hash == k;
    var q := Home(k, n);
    RehashSlot(s, n, q);
    assert LastOfClass(s, n, q) == i;
    assert Rehash(s, n)[q].hash == k;
  }

  lemma RehashCollision(s: Slots, m: Contents, n: nat, i: nat, j: nat)
    requires Lists(s, m) && Occupancy(s) < n
    requires i < j < |s| && s[i].hash != 0 && s[j].hash != 0 && Home(s[i].hash, n) == Home(s[j].hash, n)
    ensures !Agrees(Rehash(s, n), m)
  {
    var t := Rehash(s, n);
    RehashWellFormed(s, n);
    RehashSlots(s, n);
    var q := Home(s[i].hash, n);
    var gone := if t[q].hash == s[i].hash then s[j].hash else s[i].hash;
    assert gone in m && m[gone].data != 0;
    assert Home(gone, n) == q && t[q].hash != gone;
    AbsentLookup(t, gone);
    assert Lookup(t, gone) != ValueIn(m, gone);
  }

  // ---------------------------------------------------------------- states and operations

  datatype State = State(slots: Slots, count: int)

  /** What every reachable state keeps, whatever hashes are used and whichever resizes fail. */
  predicate Inv(st: State, initial: nat) {
    && 1 <= initial && IsDoubling(|st.slots|, initial)
    && Occupancy(st.slots) <= st.count
    && 2 * Occupancy(st.slots) <= |st.slots|
  }

  lemma InvHasEmpty(st: State, initial: nat)
    requires Inv(st, initial)
    ensures |st.slots| >= initial && HasEmpty(st.slots)
  {
    RoomMeansEmpty(st.slots);
  }

  datatype Op = Set(h: Hash, v: Handle, allocOk: bool) | Get(h: Hash) | Delete(h: Hash, allocOk: bool)

  datatype Reply = Done(ok: bool) | Value(handle: Handle)

  /** `do_set`, after the validity test of `map_set_str` and `map_set_ptr`. After a growth the entry is
      written through the pointer to the old table, which has just been freed, so it is lost. */
  ghost function SetStep(st: State, h: Hash, v: Handle, allocOk: bool): (State, Reply)
    requires HasEmpty(st.slots)
  {
    if v.data == 0 then (st, Done(false))
    else
      var pos := Find(st.slots, h);
      var n := |st.slots|;
      if st.slots[pos].hash != 0 then (st.(slots := st.slots[pos := Entry(h, v)]), Done(true))
      else if st.count + 1 <= n / 2 then (State(st.slots[pos := Entry(h, v)], st.count + 1), Done(true))
      else if !allocOk then (st.(count := st.count + 1), Done(false))
      else (State(Rehash(st.slots, 2 * n), st.count + 1), Done(true))
  }

  ghost function DeleteStep(st: State, initial: nat, h: Hash, allocOk: bool): (State, Reply)
    requires HasEmpty(st.slots)
  {
    var pos := Find(st.slots, h);
    var n := |st.slots|;
    if st.slots[pos].hash == 0 then (st, Done(false))
    else
      var left := State(st.slots[pos := EMPTY], st.count - 1);
      if left.count < n / 4 && n > initial then
        if allocOk then (left.(slots := Rehash(left.slots, n / 2)), Done(true)) else (left, Done(false))
      else (left, Done(true))
  }

  ghost function Step(st: State, initial: nat, op: Op): (State, Reply)
    requires HasEmpty(st.slots)
  {
    match op
    case Set(h, v, allocOk) => SetStep(st, h, v, allocOk)
    case Get(h) => (st, Value(Lookup(st.slots, h)))
    case Delete(h, allocOk) => DeleteStep(st, initial, h, allocOk)
  }

  lemma SetKeepsInv(st: State, initial: nat, h: Hash, v: Handle, allocOk: bool)
    requires Inv(st, initial) && HasEmpty(st.slots)
    ensures Inv(SetStep(st, h, v, allocOk).0, initial)
  {
    var n := |st.slots|;
    var pos := Find(st.slots, h);
    OccupancyUpdate(st.slots, pos, Entry(h, v));
    if v.data != 0 && st.slots[pos].hash == 0 && st.count + 1 > n / 2 && allocOk {
      RehashOccupancy(st.slots, 2 * n);
      DoubleIsDoubling(n, initial);
    }
  }

  lemma DeleteKeepsInv(st: State, initial: nat, h: Hash, allocOk: bool)
    requires Inv(st, initial) && HasEmpty(st.slots)
    ensures Inv(DeleteStep(st, initial, h, allocOk).0, initial)
  {
    var n := |st.slots|;
    var pos := Find(st.slots, h);
    if st.slots[pos].hash != 0 {
      var left := st.slots[pos := EMPTY];
      OccupancyUpdate(st.slots, pos, EMPTY);
      if n > initial {
        RehashOccupancy(left, n / 2);
      }
    }
  }

  /** No operation can leave the invariant, so a probe always ends at a slot of the table and the
      count never underflows. */
  lemma StepKeepsInv(st: State, initial: nat, op: Op)
    requires Inv(st, initial)
    ensures HasEmpty(st.slots) && Inv(Step(st, initial, op).0, initial)
    ensures Step(st, initial, op).0.count >= 0
  {
    InvHasEmpty(st, initial);
    match op
    case Get(_) =>
    case Set(h, v, allocOk) => SetKeepsInv(st, initial, h, v, allocOk);
    case Delete(h, allocOk) => DeleteKeepsInv(st, initial, h, allocOk);
  }

  /** What every operation does to the count and to the size of the table, and what it replies, from any
      reachable state. The count rises by one when a set of a valid handle finds no entry, also when the growth
      this needs fails; it falls by one when a delete finds one. */
  lemma CountAndSizeChange(st: State, initial: nat, op: Op)
    requires Inv(st, initial)
    ensures HasEmpty(st.slots)
    ensures var (after, reply) := Step(st, initial, op);
            var found, n := st.slots[Find(st.slots, op.h)].hash != 0, |st.slots|;
            match op
            case Get(_) =>
              && after == st
              && reply == Value(if found then st.slots[Find(st.slots, op.h)].value else Handle(0, 0))
            case Set(_, v, allocOk) =>
              var isNew := v.data != 0 && !found;
              && after.count == (if isNew then st.count + 1 else st.count)
              && |after.slots| == (if isNew && st.count + 1 > n / 2 && allocOk then 2 * n else n)
              && reply == Done(v.data != 0 && (isNew && st.count + 1 > n / 2 ==> allocOk))
            case Delete(_, allocOk) =>
              var shrinks := found && st.count - 1 < n / 4 && n > initial;
              && after.count == (if found then st.count - 1 else st.count)
              && |after.slots| == (if shrinks && allocOk then n / 2 else n)
              && reply == Done(found && (shrinks ==> allocOk))
  {
    InvHasEmpty(st, initial);
  }

  // ---------------------------------------------------------------- agreement with a partial map, exactly

  /** What the header documents for each operation, given the reply: a set that answers false did not
      set anything, a delete removes the key either way. */
  function Expected(m: Contents, op: Op, reply: Reply): Contents {
    match op
    case Set(h, v, _) => if reply == Done(true) then m[h := v] else m
    case Get(_) => m
    case Delete(h, _) => m - {h}
  }

  /** A set that would take a new slot past half load. */
  ghost predicate Grows(st: State, h: Hash)
    requires HasEmpty(st.slots)
  {
    st.slots[Find(st.slots, h)].hash == 0 && st.count + 1 > |st.slots| / 2
  }

  /** A delete that brings the table below quarter load while it is above its initial size. */
  predicate Shrinks(st: State, initial: nat) {
    st.count - 1 < |st.slots| / 4 && |st.slots| > initial
  }

  /** No entry other than the one at `pos` has slot `pos` in its probe run. */
  predicate NobodyProbesThrough(s: Slots, pos: nat)
    requires pos < |s|
  {
    forall j :: 0 <= j < |s| && j != pos && s[j].hash != 0 ==> !InRun(Home(s[j].hash, |s|), pos, j)
  }

  /** The exact condition, testable before the call, under which an operation keeps the table in step
      with the partial map: a set must use a nonzero hash and must not grow the table (a failed growth
      is harmless); a delete that resizes must leave hashes that spread apart in the smaller table, and
      one that does not resize must free a slot that no other entry's probe passes through. */
  ghost predicate Safe(st: State, initial: nat, op: Op)
    requires HasEmpty(st.slots)
  {
    match op
    case Set(h, v, allocOk) => v.data == 0 || (if Grows(st, h) then !allocOk else h != 0)
    case Get(_) => true
    case Delete(h, allocOk) =>
      var pos := Find(st.slots, h);
      if st.slots[pos].hash == 0 then true
      else if Shrinks(st, initial) && allocOk then
        SpreadApart(st.slots[pos := EMPTY], |st.slots| / 2)
      else NobodyProbesThrough(st.slots, pos)
  }

  /** A key is still found after a delete that does not resize if and only if the freed slot is not
      between that key's home and its own slot. */
  lemma DeleteKeepsKeyFound(s: Slots, pos: nat, j: nat)
    requires WellFormed(s) && Occupied(s, pos) && Occupied(s, j) && j != pos
    ensures var t := s[pos := EMPTY];
            HasEmpty(t) && (Find(t, s[j].hash) == j <==> !InRun(Home(s[j].hash, |s|), pos, j))
    ensures var t := s[pos := EMPTY];
            InRun(Home(s[j].hash, |s|), pos, j) ==> Lookup(t, s[j].hash) == NULL_HANDLE
  {
    var t := s[pos := EMPTY];
    assert t[pos].hash == 0;
    assert Reachable(s, j);
    FoundIffReachable(t, j);
  }

  lemma PunchLists(s: Slots, m: Contents, pos: nat)
    requires Lists(s, m) && Occupied(s, pos)
    ensures Lists(s[pos := EMPTY], m - {s[pos].hash}) && HasEmpty(s[pos := EMPTY])
  {
    var t, m' := s[pos := EMPTY], m - {s[pos].hash};
    assert t[pos].hash == 0;
    forall k | k in m'
      ensures Stored(t, k)
    {
      var j :| 0 <= j < |s| && s[j].hash == k;
      assert t[j].hash == k;
    }
  }

  lemma PunchRepresents(s: Slots, m: Contents, pos: nat)
    requires Represents(s, m) && Occupied(s, pos)
    ensures HasEmpty(s[pos := EMPTY])
    ensures NobodyProbesThrough(s, pos) <==> Agrees(s[pos := EMPTY], m - {s[pos].hash})
    ensures NobodyProbesThrough(s, pos) ==> Represents(s[pos := EMPTY], m - {s[pos].hash})
  {
    var t, h := s[pos := EMPTY], s[pos].hash;
    var m' := m - {h};
    assert t[pos].hash == 0;
    PunchLists(s, m, pos);
    if NobodyProbesThrough(s, pos) {
      PunchUnbroken(s, pos);
      RepresentsAgrees(t, m');
    } else {
      var j :| 0 <= j < |s| && j != pos && s[j].hash != 0 && InRun(Home(s[j].hash, |s|), pos, j);
      DeleteKeepsKeyFound(s, pos, j);
      assert s[j].hash in m' && m'[s[j].hash].data != 0;
      assert Lookup(t, s[j].hash) != ValueIn(m', s[j].hash);
    }
  }

  lemma PunchUnbroken(s: Slots, pos: nat)
    requires WellFormed(s) && Occupied(s, pos) && NobodyProbesThrough(s, pos)
    ensures WellFormed(s[pos := EMPTY])
  {
    var t := s[pos := EMPTY];
    assert t[pos].hash == 0;
    forall j | 0 <= j < |t| && t[j].hash != 0
      ensures Reachable(t, j)
    {
      assert Reachable(s, j);
    }
  }

  lemma SetExact(st: State, initial: nat, m: Contents, h: Hash, v: Handle, allocOk: bool)
    requires Inv(st, initial) && Represents(st.slots, m)
    ensures var (after, reply) := SetStep(st, h, v, allocOk);
            var op := Set(h, v, allocOk);
            && (Safe(st, initial, op) <==> Agrees(after.slots, Expected(m, op, reply)))
            && (Safe(st, initial, op) ==> Represents(after.slots, Expected(m, op, reply)))
  {
    var op := Set(h, v, allocOk);
    var (after, reply) := SetStep(st, h, v, allocOk);
    var m' := Expected(m, op, reply);
    SetKeepsInv(st, initial, h, v, allocOk);
    InvHasEmpty(after, initial);
    var pos := Find(st.slots, h);
    if v.data == 0 || (Grows(st, h) && !allocOk) {
      RepresentsAgrees(st.slots, m);
    } else if Grows(st, h) {
      GrowthLosesTheKey(st, initial, m, h, v);
    } else if h != 0 {
      PutRepresents(st.slots, m, h, v, pos);
      RepresentsAgrees(after.slots, m');
    } else {
      AbsentLookup(after.slots, 0);
      assert Lookup(after.slots, 0) != ValueIn(m', 0);
    }
  }

  /** A set that grows the table answers true and yet the new key is not in it. */
  lemma GrowthLosesTheKey(st: State, initial: nat, m: Contents, h: Hash, v: Handle)
    requires Inv(st, initial) && Represents(st.slots, m) && Grows(st, h) && v.data != 0
    ensures var (after, reply) := SetStep(st, h, v, true);
            && reply == Done(true) && HasEmpty(after.slots)
            && Lookup(after.slots, h) == NULL_HANDLE && !Agrees(after.slots, m[h := v])
  {
    RepresentsLookup(st.slots, m, h);
    assert h == 0 || !Stored(st.slots, h);
    RehashAddsNothing(st.slots, h, 2 * |st.slots|);
    hide Rehash, Represents, Occupancy, Lookup;
    assert ValueIn(m[h := v], h) == v;
  }

  lemma RehashAddsNothing(s: Slots, h: Hash, n: nat)
    requires Occupancy(s) < n && (h == 0 || !Stored(s, h))
    ensures HasEmpty(Rehash(s, n)) && Lookup(Rehash(s, n), h) == NULL_HANDLE
  {
    RehashWellFormed(s, n);
    RehashSlots(s, n);
    var t := Rehash(s, n);
    assert forall q :: 0 <= q < n && t[q].hash != 0 ==> t[q] in s;
    AbsentLookup(t, h);
  }

  /** A delete that needs a shrink it cannot get: the one case in which the header says that a delete
      answers false. */
  predicate ShrinkFails(st: State, initial: nat, m: Contents, op: Op) {
    op.Delete? && op.h in m && Shrinks(st, initial) && !op.allocOk
  }

  /** The reply is as documented if and only if the key was there: an absent key is answered false too. */
  lemma DeleteExact(st: State, initial: nat, m: Contents, h: Hash, allocOk: bool)
    requires Inv(st, initial) && Represents(st.slots, m)
    ensures var (after, reply) := DeleteStep(st, initial, h, allocOk);
            var op := Delete(h, allocOk);
            && (Safe(st, initial, op) <==> Agrees(after.slots, m - {h}))
            && (Safe(st, initial, op) ==> Represents(after.slots, m - {h}))
            && (reply == Done(!ShrinkFails(st, initial, m, op)) <==> h in m)
  {
    var pos := Find(st.slots, h);
    RepresentsLookup(st.slots, m, h);
    if st.slots[pos].hash == 0 {
      assert m - {h} == m;
      RepresentsAgrees(st.slots, m);
    } else if Shrinks(st, initial) && allocOk {
      OccupancyUpdate(st.slots, pos, EMPTY);
      PunchLists(st.slots, m, pos);
      RehashRepresents(st.slots[pos := EMPTY], m - {h}, |st.slots| / 2);
    } else {
      PunchRepresents(st.slots, m, pos);
    }
  }

  /** One step, exactly: from a table that represents `m`, the table agrees with what the header
      documents if and only if the operation is safe, and then it represents the new map. A delete's reply
      is as documented if and only if the key was there. */
  lemma StepExact(st: State, initial: nat, m: Contents, op: Op)
    requires Inv(st, initial) && Represents(st.slots, m)
    ensures var (after, reply) := Step(st, initial, op);
            && Inv(after, initial)
            && (Safe(st, initial, op) <==> Agrees(after.slots, Expected(m, op, reply)))
            && (Safe(st, initial, op) ==> Represents(after.slots, Expected(m, op, reply)))
            && (op.Delete? ==> (reply == Done(!ShrinkFails(st, initial, m, op)) <==> op.h in m))
  {
    StepKeepsInv(st, initial, op);
    match op
    case Set(h, v, allocOk) => SetExact(st, initial, m, h, v, allocOk);
    case Get(h) => RepresentsAgrees(st.slots, m);
    case Delete(h, allocOk) => DeleteExact(st, initial, m, h, allocOk);
  }

  /** Where the count is the number of occupied slots, it stays so if and only if a set of a valid handle
      replaces a value or takes a slot under a nonzero hash without growing, and a delete that resizes
      loses no entry: a growth leaves it too high whether it succeeds or fails. */
  lemma CountStaysExactIff(st: State, initial: nat, op: Op)
    requires Inv(st, initial) && st.count == Occupancy(st.slots)
    ensures HasEmpty(st.slots)
    ensures var after := Step(st, initial, op).0;
            after.count == Occupancy(after.slots) <==>
            match op
            case Set(h, v, _) => v.data == 0 || st.slots[Find(st.slots, h)].hash != 0 || (h != 0 && !Grows(st, h))
            case Get(_) => true
            case Delete(h, allocOk) =>
              st.slots[Find(st.slots, h)].hash != 0 && Shrinks(st, initial) && allocOk ==>
                SpreadApart(st.slots[Find(st.slots, h) := EMPTY], |st.slots| / 2)
  {
    InvHasEmpty(st, initial);
    var n := |st.slots|;
    match op
    case Get(_) =>
    case Set(h, v, _) =>
      OccupancyUpdate(st.slots, Find(st.slots, h), Entry(h, v));
      RehashOccupancy(st.slots, 2 * n);
    case Delete(h, _) =>
      OccupancyUpdate(st.slots, Find(st.slots, h), EMPTY);
      if n >= 2 {
        RehashOccupancy(st.slots[Find(st.slots, h) := EMPTY], n / 2);
      }
  }

  // ---------------------------------------------------------------- whole runs

  /** The empty table of `map_create`. */
  ghost function Created(initial: nat): (st: State)
    requires initial >= 1
    ensures Inv(st, initial) && Balanced(st, initial) && Represents(st.slots, map[])
    ensures st == State(Blank(initial), 0)
  {
    BlankIsVacant(Blank(initial));
    RoomMeansEmpty(Blank(initial));
    State(Blank(initial), 0)
  }

  /** The state after a run of operations, from any state with the invariant. */
  ghost function Run(st: State, initial: nat, ops: seq<Op>): (after: State)
    requires Inv(st, initial)
    ensures Inv(after, initial)
    decreases |ops|
  {
    if |ops| == 0 then st
    else
      StepKeepsInv(st, initial, ops[0]);
      Run(Step(st, initial, ops[0]).0, initial, ops[1..])
  }

  /** The replies of the table over a run. */
  ghost function Replies(st: State, initial: nat, ops: seq<Op>): (replies: seq<Reply>)
    requires Inv(st, initial)
    ensures |replies| == |ops|
    decreases |ops|
  {
    if |ops| == 0 then []
    else
      StepKeepsInv(st, initial, ops[0]);
      var (after, reply) := Step(st, initial, ops[0]);
      [reply] + Replies(after, initial, ops[1..])
  }

  /** The partial map after a run, given the replies. */
  function ExpectedAfter(m: Contents, ops: seq<Op>, replies: seq<Reply>): Contents
    requires |replies| == |ops|
    decreases |ops|
  {
    if |ops| == 0 then m else ExpectedAfter(Expected(m, ops[0], replies[0]), ops[1..], replies[1..])
  }

  /** Every get of the run answers what the partial map holds at that moment. */
  predicate GetsAnswer(m: Contents, ops: seq<Op>, replies: seq<Reply>)
    requires |replies| == |ops|
    decreases |ops|
  {
    |ops| == 0
    || ((ops[0].Get? ==> replies[0] == Value(ValueIn(m, ops[0].h)))
        && GetsAnswer(Expected(m, ops[0], replies[0]), ops[1..], replies[1..]))
  }

  /** Every operation of the run is safe when its turn comes. */
  ghost predicate AllSafe(st: State, initial: nat, ops: seq<Op>)
    requires Inv(st, initial)
    decreases |ops|
  {
    |ops| == 0
    || (StepKeepsInv(st, initial, ops[0]);
        Safe(st, initial, ops[0]) && AllSafe(Step(st, initial, ops[0]).0, initial, ops[1..]))
  }

  /** A run of safe operations is a run of the partial map: every get answers the handle last set and
      not deleted since, and at the end the table represents the map. */
  lemma {:induction false} SafeRunAgrees(st: State, initial: nat, m: Contents, ops: seq<Op>)
    requires Inv(st, initial) && Represents(st.slots, m) && AllSafe(st, initial, ops)
    ensures var replies := Replies(st, initial, ops);
            && GetsAnswer(m, ops, replies)
            && Represents(Run(st, initial, ops).slots, ExpectedAfter(m, ops, replies))
    decreases |ops|
  {
    if |ops| > 0 {
      var (after, reply) := Step(st, initial, ops[0]);
      StepExact(st, initial, m, ops[0]);
      if ops[0].Get? {
        RepresentsLookup(st.slots, m, ops[0].h);
      }
      SafeRunAgrees(after, initial, Expected(m, ops[0], reply), ops[1..]);
      assert Replies(st, initial, ops)[1..] == Replies(after, initial, ops[1..]);
    }
  }

  /** Only sets under nonzero hashes, and gets; and no set ever grows the table. */
  ghost predicate GrowthFree(st: State, initial: nat, ops: seq<Op>)
    requires Inv(st, initial)
    decreases |ops|
  {
    |ops| == 0
    || (StepKeepsInv(st, initial, ops[0]);
        && !ops[0].Delete?
        && (ops[0].Set? ==> ops[0].v.data == 0 || (ops[0].h != 0 && !Grows(st, ops[0].h)))
        && GrowthFree(Step(st, initial, ops[0]).0, initial, ops[1..]))
  }

  lemma {:induction false} GrowthFreeIsSafe(st: State, initial: nat, ops: seq<Op>)
    requires Inv(st, initial) && GrowthFree(st, initial, ops)
    ensures AllSafe(st, initial, ops)
    decreases |ops|
  {
    if |ops| > 0 {
      StepKeepsInv(st, initial, ops[0]);
      GrowthFreeIsSafe(Step(st, initial, ops[0]).0, initial, ops[1..]);
    }
  }

  /** From the empty table, sets and gets that never trigger growth agree with a partial map. */
  lemma GrowthFreeRunAgrees(initial: nat, ops: seq<Op>)
    requires initial >= 1 && GrowthFree(Created(initial), initial, ops)
    ensures var replies := Replies(Created(initial), initial, ops);
            && GetsAnswer(map[], ops, replies)
            && Represents(Run(Created(initial), initial, ops).slots, ExpectedAfter(map[], ops, replies))
  {
    GrowthFreeIsSafe(Created(initial), initial, ops);
    SafeRunAgrees(Created(initial), initial, map[], ops);
  }

  // ---------------------------------------------------------------- how full the table gets

  predicate ResizesSucceed(op: Op) {
    op.Get? || op.allocOk
  }

  /** At most half full; above the initial size, at least a quarter full. */
  predicate Balanced(st: State, initial: nat) {
    && st.count <= |st.slots| / 2
    && (|st.slots| > initial ==> st.count >= |st.slots| / 4)
  }

  lemma StepKeepsBalance(st: State, initial: nat, op: Op)
    requires Inv(st, initial) && Balanced(st, initial) && ResizesSucceed(op)
    ensures HasEmpty(st.slots) && Balanced(Step(st, initial, op).0, initial)
  {
    InvHasEmpty(st, initial);
  }

  /** Over every run in which resizes succeed the load stays between a quarter and a half, so the table
      never has more slots than its initial size or four times its count (plus three when the initial
      size is odd). */
  lemma {:induction false} RunKeepsBalance(st: State, initial: nat, ops: seq<Op>)
    requires Inv(st, initial) && Balanced(st, initial) && forall i :: 0 <= i < |ops| ==> ResizesSucceed(ops[i])
    ensures var after := Run(st, initial, ops);
            && Balanced(after, initial)
            && (|after.slots| <= initial || |after.slots| <= 4 * after.count + 3)
            && (|after.slots| <= initial || initial % 2 == 1 || |after.slots| <= 4 * after.count)
    decreases |ops|
  {
    if |ops| == 0 {
      if |st.slots| > initial && initial % 2 == 0 {
        DoublingOfEven(|st.slots|, initial);
      }
    } else {
      StepKeepsInv(st, initial, ops[0]);
      StepKeepsBalance(st, initial, ops[0]);
      RunKeepsBalance(Step(st, initial, ops[0]).0, initial, ops[1..]);
    }
  }

  /** A growth is never immediately followed by a shrink, nor a shrink by a growth. */
  lemma NoThrashing(st: State, initial: nat, op: Op, next: Op)
    requires Inv(st, initial) && Balanced(st, initial) && ResizesSucceed(op) && ResizesSucceed(next)
    ensures HasEmpty(st.slots)
    ensures var st1 := Step(st, initial, op).0;
            && HasEmpty(st1.slots)
            && (|st1.slots| > |st.slots| ==> |Step(st1, initial, next).0.slots| >= |st1.slots|)
            && (|st1.slots| < |st.slots| ==> |Step(st1, initial, next).0.slots| <= |st1.slots|)
  {
    StepKeepsInv(st, initial, op);
    InvHasEmpty(Step(st, initial, op).0, initial);
  }

  // ---------------------------------------------------------------- runs that go wrong, from a new map

  lemma RepliesCons(st: State, initial: nat, op: Op, ops: seq<Op>)
    requires Inv(st, initial)
    ensures HasEmpty(st.slots) && Inv(Step(st, initial, op).0, initial)
    ensures Replies(st, initial, [op] + ops) ==
            [Step(st, initial, op).1] + Replies(Step(st, initial, op).0, initial, ops)
    ensures Run(st, initial, [op] + ops) == Run(Step(st, initial, op).0, initial, ops)
    ensures AllSafe(st, initial, [op] + ops) <==>
            Safe(st, initial, op) && AllSafe(Step(st, initial, op).0, initial, ops)
  {
    StepKeepsInv(st, initial, op);
    assert ([op] + ops)[1..] == ops;
  }

  /** The states a run goes through. */
  ghost predicate Trace(st: seq<State>, initial: nat, ops: seq<Op>, replies: seq<Reply>) {
    && |st| == |ops| + 1 && |replies| == |ops|
    && (forall i :: 0 <= i < |ops| ==> HasEmpty(st[i].slots))
    && (forall i :: 0 <= i < |ops| ==> Step(st[i], initial, ops[i]) == (st[i + 1], replies[i]))
  }

  lemma {:induction false} TraceTells(st: seq<State>, initial: nat, ops: seq<Op>, replies: seq<Reply>)
    requires Trace(st, initial, ops, replies) && Inv(st[0], initial)
    ensures Replies(st[0], initial, ops) == replies
    ensures (forall i :: 0 <= i < |ops| ==> HasEmpty(st[i].slots) && Safe(st[i], initial, ops[i])) ==>
              AllSafe(st[0], initial, ops)
    decreases |ops|
  {
    if |ops| > 0 {
      hide Inv, Step, Safe, HasEmpty;
      assert ops == [ops[0]] + ops[1..] && replies == [replies[0]] + replies[1..];
      RepliesCons(st[0], initial, ops[0], ops[1..]);
      TraceTells(st[1..], initial, ops[1..], replies[1..]);
    }
  }

  /** A set that neither replaces nor grows. */
  lemma SetWrites(st: State, h: Hash, v: Handle, pos: nat, allocOk: bool)
    requires HasEmpty(st.slots) && ProbeEnds(st.slots, h, pos) && st.slots[pos].hash == 0
    requires v.data != 0 && st.count + 1 <= |st.slots| / 2
    ensures SetStep(st, h, v, allocOk) == (State(st.slots[pos := Entry(h, v)], st.count + 1), Done(true))
  {
    LookupAt(st.slots, h, pos);
  }

  /** The table after setting `h` and then `k`, when both have the same home slot. */
  function SharedHome(n: nat, h: Hash, k: Hash, v: Handle, w: Handle): Slots
    requires n > 1
  {
    var p := Home(h, n);
    Blank(n)[p := Entry(h, v)][Next(p, n) := Entry(k, w)]
  }

  lemma SharedHomeRepresents(n: nat, h: Hash, k: Hash, v: Handle, w: Handle)
    requires n > 2 && h != 0 && k != 0 && h != k && Home(h, n) == Home(k, n) && v.data != 0 && w.data != 0
    ensures var s1 := Blank(n)[Home(h, n) := Entry(h, v)];
            && Represents(Blank(n), map[]) && Represents(s1, map[h := v])
            && ProbeEnds(Blank(n), h, Home(h, n)) && ProbeEnds(s1, k, Next(Home(h, n), n))
    ensures Represents(SharedHome(n, h, k, v, w), map[h := v, k := w])
  {
    var p := Home(h, n);
    var q := Next(p, n);
    var e := Next(q, n);
    var s0 := Blank(n);
    var s1 := s0[p := Entry(h, v)];
    var s := s1[q := Entry(k, w)];
    assert s0[e].hash == 0 && s1[e].hash == 0 && s[e].hash == 0;
    PutRepresents(s0, map[], h, v, p);
    PutRepresents(s1, map[h := v], k, w, q);
    assert map[h := v][k := w] == map[h := v, k := w];
  }

  /** Two keys, each set where its probe ends in a new table; then the first is deleted. */
  lemma TwoKeysSteps(n: nat, h: Hash, k: Hash, v: Handle, w: Handle, q: nat)
    requires n >= 4 && h != 0 && k != 0 && h != k && v.data != 0 && w.data != 0
    requires q == if Home(h, n) == Home(k, n) then Next(Home(h, n), n) else Home(k, n)
    ensures var s1 := Blank(n)[Home(h, n) := Entry(h, v)];
            var s2 := s1[q := Entry(k, w)];
            var t := s2[Home(h, n) := EMPTY];
            && HasEmpty(Blank(n)) && SetStep(State(Blank(n), 0), h, v, true) == (State(s1, 1), Done(true))
            && HasEmpty(s1) && SetStep(State(s1, 1), k, w, true) == (State(s2, 2), Done(true))
            && HasEmpty(s2) && DeleteStep(State(s2, 2), n, h, true) == (State(t, 1), Done(true))
            && HasEmpty(t) && Lookup(t, k) == if Home(h, n) == Home(k, n) then NULL_HANDLE else w
  {
    var p := Home(h, n);
    var s1 := Blank(n)[p := Entry(h, v)];
    var s2 := s1[q := Entry(k, w)];
    var t := s2[p := EMPTY];
    var e := Next(q, n);
    assert Blank(n)[p].hash == 0 && s1[q].hash == 0 && t[p].hash == 0;
    assert s2[e].hash == 0 || s2[Next(e, n)].hash == 0;
    SetWrites(State(Blank(n), 0), h, v, p, true);
    SetWrites(State(s1, 1), k, w, q, true);
    LookupAt(s2, h, p);
    LookupAt(t, k, if p == Home(k, n) then p else q);
  }

  lemma RunOfTwo(st: State, initial: nat, op: Op, next: Op)
    requires Inv(st, initial)
    ensures HasEmpty(st.slots) && HasEmpty(Step(st, initial, op).0.slots)
    ensures Run(st, initial, [op, next]) == Step(Step(st, initial, op).0, initial, next).0
  {
    StepKeepsInv(st, initial, op);
    InvHasEmpty(Step(st, initial, op).0, initial);
    hide Inv, Step, HasEmpty, Safe;
    assert [op, next] == [op] + ([next] + []);
    RepliesCons(st, initial, op, [next] + []);
    RepliesCons(Step(st, initial, op).0, initial, next, []);
  }

  /** Where entries go: the first key of a new map into slot `h % n`; a second one with the same remainder
      into the next slot, around the end of the table, and any other one into its own. */
  lemma FirstTwoSlots(n: nat, h: Hash, k: Hash, v: Handle, w: Handle)
    requires n >= 4 && h != 0 && k != 0 && h != k && v.data != 0 && w.data != 0
    ensures var slots := Run(Created(n), n, [Set(h, v, true), Set(k, w, true)]).slots;
            var q := if h % n != k % n then k % n else if h % n + 1 == n then 0 else h % n + 1;
            && |slots| == n && slots[h % n] == Entry(h, v) && slots[q] == Entry(k, w)
            && forall i :: 0 <= i < n && i != h % n && i != q ==> slots[i].hash == 0
  {
    var q := if Home(h, n) == Home(k, n) then Next(Home(h, n), n) else Home(k, n);
    hide Inv, Represents, Balanced, SetStep, DeleteStep, HasEmpty, Run, Lookup;
    TwoKeysSteps(n, h, k, v, w, q);
    RunOfTwo(Created(n), n, Set(h, v, true), Set(k, w, true));
  }

  /** What the get of that run answers. */
  function OtherAnswer(n: nat, h: Hash, k: Hash, w: Handle): Handle
    requires n > 0
  {
    if Home(h, n) == Home(k, n) then NULL_HANDLE else w
  }

  lemma TwoKeysTrace(n: nat, h: Hash, k: Hash, v: Handle, w: Handle) returns (st: seq<State>)
    requires n >= 4 && h != 0 && k != 0 && h != k && v.data != 0 && w.data != 0
    ensures |st| == 5 && st[0] == State(Blank(n), 0)
    ensures Trace(st, n, [Set(h, v, true), Set(k, w, true), Delete(h, true), Get(k)],
                  [Done(true), Done(true), Done(true), Value(OtherAnswer(n, h, k, w))])
  {
    var q := if Home(h, n) == Home(k, n) then Next(Home(h, n), n) else Home(k, n);
    var s1 := Blank(n)[Home(h, n) := Entry(h, v)];
    var s2 := s1[q := Entry(k, w)];
    var t := s2[Home(h, n) := EMPTY];
    TwoKeysSteps(n, h, k, v, w, q);
    hide Inv, SetStep, DeleteStep, HasEmpty, Home, Represents, Balanced, Lookup;
    st := [State(Blank(n), 0), State(s1, 1), State(s2, 2), State(t, 1), State(t, 1)];
  }

  /** From a new map: set two keys, delete the first, and the second is found if and only if the two
      have different home slots, although it was never deleted. */
  lemma DeleteHidesTheOtherIff(n: nat, h: Hash, k: Hash, v: Handle, w: Handle)
    requires n >= 4 && h != 0 && k != 0 && h != k && v.data != 0 && w.data != 0
    ensures Replies(Created(n), n, [Set(h, v, true), Set(k, w, true), Delete(h, true), Get(k)]) ==
            [Done(true), Done(true), Done(true), Value(if Home(h, n) == Home(k, n) then NULL_HANDLE else w)]
  {
    var st0 := Created(n);
    var st := TwoKeysTrace(n, h, k, v, w);
    hide Trace, Replies, Inv, Represents, Balanced, Home;
    TraceTells(st, n, [Set(h, v, true), Set(k, w, true), Delete(h, true), Get(k)],
               [Done(true), Done(true), Done(true), Value(OtherAnswer(n, h, k, w))]);
  }

  /** A key whose hash is zero can be set, but not read back. */
  lemma ZeroHashIsNotStored(n: nat, v: Handle)
    requires n >= 2 && v.data != 0
    ensures Replies(Created(n), n, [Set(0, v, true), Get(0)]) == [Done(true), Value(NULL_HANDLE)]
  {
    var st := Created(n);
    var st1 := State(st.slots[0 := Entry(0, v)], 1);
    SetWrites(st, 0, v, 0, true);
    assert st1.slots[1].hash == 0;
    LookupAt(st1.slots, 0, 0);
    TraceTells([st, st1, st1], n, [Set(0, v, true), Get(0)], [Done(true), Value(NULL_HANDLE)]);
  }

  // ---------------------------------------------------------------- the first growth of a new map

  /** Sets of these hashes in turn. */
  function Sets(hs: seq<Hash>, v: Handle): (ops: seq<Op>)
    ensures |ops| == |hs|
  {
    if |hs| == 0 then [] else [Set(hs[0], v, true)] + Sets(hs[1..], v)
  }

  function AllDone(n: nat): (replies: seq<Reply>)
    ensures |replies| == n
  {
    if n == 0 then [] else [Done(true)] + AllDone(n - 1)
  }

  function KeysOf(hs: seq<Hash>, v: Handle): Contents {
    map h | h in hs :: v
  }

  /** New keys for a table that stands for `m`: nonzero, different, and not in it. */
  predicate NewKeys(m: Contents, hs: seq<Hash>) {
    NoDuplicates(hs) && 0 !in hs && forall h :: h in hs ==> h !in m
  }

  lemma NewKeysRest(m: Contents, hs: seq<Hash>, v: Handle)
    requires NewKeys(m, hs) && |hs| > 0
    ensures hs[0] != 0 && hs[0] !in m && NewKeys(m[hs[0] := v], hs[1..])
  {
    assert hs[0] in hs;
    forall h | h in hs[1..]
      ensures h in hs && h != hs[0]
    {
      var i :| 0 <= i < |hs| - 1 && hs[1..][i] == h;
      assert hs[i + 1] == h;
    }
  }

  lemma KeysOfRest(m: Contents, hs: seq<Hash>, v: Handle)
    requires |hs| > 0
    ensures m[hs[0] := v] + KeysOf(hs[1..], v) == m + KeysOf(hs, v)
  {
    assert forall h :: h in hs <==> h == hs[0] || h in hs[1..];
  }

  lemma FillStep(st: State, m: Contents, h: Hash, v: Handle)
    requires Represents(st.slots, m) && h != 0 && h !in m && v.data != 0 && st.count + 1 <= |st.slots| / 2
    requires HasEmpty(SetStep(st, h, v, true).0.slots)
    ensures var (after, reply) := SetStep(st, h, v, true);
            && reply == Done(true) && Represents(after.slots, m[h := v])
            && after.count == st.count + 1 && |after.slots| == |st.slots|
  {
    RepresentsLookup(st.slots, m, h);
    PutRepresents(st.slots, m, h, v, Find(st.slots, h));
  }

  /** Sets of new keys that stay within half load are all answered true and all there afterwards. */
  lemma {:induction false} Filling(st: State, n: nat, m: Contents, hs: seq<Hash>, v: Handle)
    requires Inv(st, n) && Represents(st.slots, m)
    requires NewKeys(m, hs) && v.data != 0 && st.count + |hs| <= |st.slots| / 2
    ensures Replies(st, n, Sets(hs, v)) == AllDone(|hs|)
    ensures var after := Run(st, n, Sets(hs, v));
            && Represents(after.slots, m + KeysOf(hs, v)) && |after.slots| == |st.slots|
            && after.count == st.count + |hs|
    decreases |hs|
  {
    if |hs| == 0 {
      assert m + KeysOf(hs, v) == m;
    } else {
      var after := SetStep(st, hs[0], v, true).0;
      NewKeysRest(m, hs, v);
      KeysOfRest(m, hs, v);
      StepKeepsInv(st, n, Set(hs[0], v, true));
      InvHasEmpty(after, n);
      FillStep(st, m, hs[0], v);
      hide Inv, Represents, SetStep, Occupancy, NewKeys, KeysOf;
      RepliesCons(st, n, Set(hs[0], v, true), Sets(hs[1..], v));
      Filling(after, n, m[hs[0] := v], hs[1..], v);
    }
  }

  /** The homes of these hashes in a table of size `n` are pairwise different. */
  predicate DifferentHomes(hs: seq<Hash>, n: nat)
    requires n > 0
  {
    forall i, j :: 0 <= i < j < |hs| ==> Home(hs[i], n) != Home(hs[j], n)
  }

  lemma SpreadApartIff(s: Slots, hs: seq<Hash>, v: Handle, n: nat)
    requires n > 0 && Represents(s, KeysOf(hs, v)) && NoDuplicates(hs)
    ensures SpreadApart(s, n) <==> DifferentHomes(hs, n)
  {
    hide Represents, KeysOf;
    if !SpreadApart(s, n) {
      var i, j :| 0 <= i < j < |s| && s[i].hash != 0 && s[j].hash != 0 && Home(s[i].hash, n) == Home(s[j].hash, n);
      var a := KeyInSlot(s, hs, v, i);
      var b := KeyInSlot(s, hs, v, j);
      assert a != b;
    }
    if !DifferentHomes(hs, n) {
      var a, b :| 0 <= a < b < |hs| && Home(hs[a], n) == Home(hs[b], n);
      var i := SlotOfKey(s, hs, v, a);
      var j := SlotOfKey(s, hs, v, b);
      assert i != j;
    }
  }

  lemma KeyInSlot(s: Slots, hs: seq<Hash>, v: Handle, i: nat) returns (a: nat)
    requires Represents(s, KeysOf(hs, v)) && i < |s| && s[i].hash != 0
    ensures a < |hs| && hs[a] == s[i].hash && forall j :: 0 <= j < |s| && s[j].hash == hs[a] ==> j == i
  {
    assert s[i].hash in KeysOf(hs, v);
    a :| 0 <= a < |hs| && hs[a] == s[i].hash;
  }

  lemma SlotOfKey(s: Slots, hs: seq<Hash>, v: Handle, a: nat) returns (i: nat)
    requires Represents(s, KeysOf(hs, v)) && a < |hs|
    ensures i < |s| && s[i].hash == hs[a] != 0
  {
    assert hs[a] in KeysOf(hs, v);
    i :| 0 <= i < |s| && s[i].hash == hs[a];
  }

  /** The first growth of a new map. Any keys that fill it to half load, and one more, are all answered
      true; the last one is then not found, and the table agrees with the map of the others if and only if
      their homes in the doubled table are pairwise different. */
  lemma FirstGrowth(n: nat, hs: seq<Hash>, last: Hash, v: Handle)
    requires n >= 1 && |hs| == n / 2 && NewKeys(map[], hs + [last]) && v.data != 0
    ensures Replies(Created(n), n, Sets(hs, v) + [Set(last, v, true)]) == AllDone(n / 2) + [Done(true)]
    ensures var st := Run(Created(n), n, Sets(hs, v) + [Set(last, v, true)]);
            && |st.slots| == 2 * n && st.count == n / 2 + 1
            && HasEmpty(st.slots) && Lookup(st.slots, last) == NULL_HANDLE
            && (Agrees(st.slots, KeysOf(hs, v)) <==> DifferentHomes(hs, 2 * n))
  {
    var st := FilledToHalf(n, hs, last, v);
    var m := KeysOf(hs, v);
    RepresentsLookup(st.slots, m, last);
    GrowthLosesTheKey(st, n, m, last, v);
    RehashRepresents(st.slots, m, 2 * n);
    SpreadApartIff(st.slots, hs, v, 2 * n);
  }

  /** The state before the last of those sets, and the one after it. */
  lemma FilledToHalf(n: nat, hs: seq<Hash>, last: Hash, v: Handle) returns (st: State)
    requires n >= 1 && |hs| == n / 2 && NewKeys(map[], hs + [last]) && v.data != 0
    ensures Inv(st, n) && Represents(st.slots, KeysOf(hs, v)) && NoDuplicates(hs)
    ensures |st.slots| == n && st.count == n / 2 && last !in KeysOf(hs, v)
    ensures Step(st, n, Set(last, v, true)).0 == State(Rehash(st.slots, 2 * n), n / 2 + 1)
    ensures Run(Created(n), n, Sets(hs, v) + [Set(last, v, true)]) == Step(st, n, Set(last, v, true)).0
    ensures Replies(Created(n), n, Sets(hs, v) + [Set(last, v, true)]) == AllDone(n / 2) + [Done(true)]
  {
    st := Run(Created(n), n, Sets(hs, v));
    var m := KeysOf(hs, v);
    NewKeysFront(hs, last);
    Filling(Created(n), n, map[], hs, v);
    assert map[] + m == m;
    RunThenLast(Created(n), n, Sets(hs, v), Set(last, v, true));
    RepresentsLookup(st.slots, m, last);
    hide Represents, Inv, NewKeys;
  }

  /** And what comes after it: new keys that fit the half load of the doubled table do not make it grow
      again; they are all answered true, and all found. The key that was lost can be one of them. */
  lemma AfterFirstGrowth(n: nat, hs: seq<Hash>, last: Hash, more: seq<Hash>, v: Handle)
    requires n >= 1 && |hs| == n / 2 && NewKeys(map[], hs + [last]) && v.data != 0
    requires NewKeys(KeysOf(hs, v), more) && n / 2 + 1 + |more| <= n
    ensures var st := Run(Created(n), n, Sets(hs, v) + [Set(last, v, true)]);
            var after := Run(st, n, Sets(more, v));
            && Replies(st, n, Sets(more, v)) == AllDone(|more|)
            && |after.slots| == 2 * n && after.count == n / 2 + 1 + |more|
            && HasEmpty(after.slots) && forall h :: h in more ==> Lookup(after.slots, h) == v
  {
    var full := FilledToHalf(n, hs, last, v);
    var st := Run(Created(n), n, Sets(hs, v) + [Set(last, v, true)]);
    var m := Survivors(full.slots, KeysOf(hs, v), 2 * n);
    Filling(st, n, m, more, v);
    var after := Run(st, n, Sets(more, v));
    forall h | h in more
      ensures HasEmpty(after.slots) && Lookup(after.slots, h) == v
    {
      RepresentsLookup(after.slots, m + KeysOf(more, v), h);
    }
    InvHasEmpty(after, n);
  }

  /** What a resize leaves is the map of some of the keys. */
  lemma Survivors(s: Slots, m: Contents, n: nat) returns (left: Contents)
    requires Represents(s, m) && Occupancy(s) < n
    ensures Represents(Rehash(s, n), left) && forall h :: h in left ==> h in m
  {
    var t := Rehash(s, n);
    RehashWellFormed(s, n);
    RehashSlots(s, n);
    left := MapOf(t);
    MapOfRepresents(t);
    forall h | h in left
      ensures h in m
    {
      var q :| 0 <= q < n && t[q].hash == h;
      assert t[q] in s;
    }
  }

  lemma NewKeysFront(hs: seq<Hash>, last: Hash)
    requires NewKeys(map[], hs + [last])
    ensures NewKeys(map[], hs) && last != 0 && last !in hs
  {
    var all := hs + [last];
    assert all[|hs|] == last && last in all;
    assert forall i :: 0 <= i < |hs| ==> all[i] == hs[i];
  }

  lemma {:induction false} RunThenLast(st: State, n: nat, ops: seq<Op>, last: Op)
    requires Inv(st, n)
    ensures var before := Run(st, n, ops);
            && HasEmpty(before.slots)
            && Run(st, n, ops + [last]) == Step(before, n, last).0
            && Replies(st, n, ops + [last]) == Replies(st, n, ops) + [Step(before, n, last).1]
    decreases |ops|
  {
    hide *;
    RunOfNothing(st, n);
    StepKeepsInv(Run(st, n, ops), n, last);
    if |ops| == 0 {
      assert ops == [] && ops + [last] == [last] + [];
      RepliesCons(st, n, last, []);
      RunOfNothing(Step(st, n, last).0, n);
    } else {
      StepKeepsInv(st, n, ops[0]);
      RunThenLast(Step(st, n, ops[0]).0, n, ops[1..], last);
      assert ops + [last] == [ops[0]] + (ops[1..] + [last]) && ops == [ops[0]] + ops[1..];
      RepliesCons(st, n, ops[0], ops[1..] + [last]);
      RepliesCons(st, n, ops[0], ops[1..]);
    }
  }

  lemma RunOfNothing(st: State, initial: nat)
    requires Inv(st, initial)
    ensures Run(st, initial, []) == st && Replies(st, initial, []) == []
  {
  }

  // ---------------------------------------------------------------- the map itself

  class Map {
    const initialSize: nat
    var entries: array<Entry>
    var entryCount: int
    var tableSize: nat

    ghost function Abs(): State
      reads this, entries
    {
      State(entries[..], entryCount)
    }

    ghost predicate Valid()
      reads this, entries
    {
      entries.Length == tableSize && Inv(Abs(), initialSize)
    }

    constructor (initialSize: nat)
      requires initialSize >= 1
      ensures Valid() && fresh(entries) && this.initialSize == initialSize
      ensures Abs() == Created(initialSize)
    {
      this.initialSize := initialSize;
      entryCount := 0;
      tableSize := initialSize;
      entries := new Entry[initialSize](_ => EMPTY);
      new;
      assert entries[..] == Blank(initialSize);
      assert Abs() == Created(initialSize);
    }

    /** `resize_entries_table` */
    method ResizeEntriesTable(isGrow: bool, allocOk: bool) returns (ok: bool)
      requires entries.Length == tableSize && (isGrow || tableSize >= 2) && tableSize > 0
      modifies this
      ensures ok == allocOk && entries.Length == tableSize && entryCount == old(entryCount)
      ensures !ok ==> entries == old(entries) && tableSize == old(tableSize)
      ensures ok ==> fresh(entries) && tableSize == if isGrow then 2 * old(tableSize) else old(tableSize) / 2
      ensures ok ==> entries[..] == Rehash(old(entries[..]), tableSize)
    {
      var newTableSize := if isGrow then tableSize * 2 else tableSize / 2;
      if !allocOk {
        return false;
      }
      var oldEntries := entries;
      var newEntries := new Entry[newTableSize](_ => EMPTY);
      var i := 0;
      assert newEntries[..] == Blank(newTableSize);
      while i < tableSize
        invariant 0 <= i <= tableSize && unchanged(this) && unchanged(oldEntries)
        invariant newEntries[..] == Rehash(oldEntries[..i], newTableSize)
      {
        assert oldEntries[..i + 1][..i] == oldEntries[..i];
        if oldEntries[i].hash != 0 {
          var newPos := Home(oldEntries[i].hash, newTableSize);
          newEntries[newPos] := oldEntries[i];
        }
        i := i + 1;
      }
      assert oldEntries[..i] == oldEntries[..];
      tableSize := newTableSize;
      entries := newEntries;
      return true;
    }

    /** `do_set` behind `map_set_str` and `map_set_ptr`. The local `entries` is read before the resize;
        after a growth it still names the freed table, and the last two writes go there when they land
        inside it. */
    method Set(h: Hash, v: Handle, allocOk: bool) returns (ok: bool)
      requires Valid()
      modifies this, entries
      ensures Valid() && (entries == old(entries) || fresh(entries))
      ensures HasEmpty(old(Abs()).slots) && (Abs(), Done(ok)) == SetStep(old(Abs()), h, v, allocOk)
      ensures var s, c := old(entries[..]), old(entryCount);
              var isNew := v.data != 0 && s[Find(s, h)].hash == 0;
              && entryCount == (if isNew then c + 1 else c)
              && tableSize == (if isNew && c + 1 > |s| / 2 && allocOk then 2 * |s| else |s|)
              && ok == (v.data != 0 && (isNew && c + 1 > |s| / 2 ==> allocOk))
              && (tableSize == |s| ==> entries[..] == if ok then s[Find(s, h) := Entry(h, v)] else s)
    {
      StepKeepsInv(Abs(), initialSize, Op.Set(h, v, allocOk));
      hide IsDoubling, Occupancy;
      if v.data == 0 {
        return false;
      }
      ghost var before := Abs();
      var entries := this.entries;
      var pos := FindEntryPos(this.entries, h);
      LookupAt(before.slots, h, pos);
      if entries[pos].hash == 0 {
        entryCount := entryCount + 1;
        if entryCount > tableSize / 2 {
          var resized := ResizeEntriesTable(true, allocOk);
          if !resized {
            return false;
          }
          RehashWellFormed(before.slots, tableSize);
          pos := FindEntryPos(this.entries, h);
        }
      }
      if pos < entries.Length {
        entries[pos] := Entry(h, v);
      }
      return true;
    }

    /** `do_get` */
    method Get(h: Hash) returns (value: Handle)
      requires Valid()
      ensures HasEmpty(Abs().slots) && value == Lookup(Abs().slots, h)
      ensures var e := entries[..][Find(entries[..], h)]; value == if e.hash == 0 then Handle(0, 0) else e.value
    {
      InvHasEmpty(Abs(), initialSize);
      var pos := FindEntryPos(this.entries, h);
      LookupAt(Abs().slots, h, pos);
      if entries[pos].hash == 0 {
        return NULL_HANDLE;
      }
      return entries[pos].value;
    }

    /** `do_delete` */
    method Delete(h: Hash, allocOk: bool) returns (ok: bool)
      requires Valid()
      modifies this, entries
      ensures Valid() && (entries == old(entries) || fresh(entries))
      ensures HasEmpty(old(Abs()).slots) && (Abs(), Done(ok)) == DeleteStep(old(Abs()), initialSize, h, allocOk)
      ensures var s, c := old(entries[..]), old(entryCount);
              var found := s[Find(s, h)].hash != 0;
              var shrinks := found && c - 1 < |s| / 4 && |s| > initialSize;
              && entryCount == (if found then c - 1 else c)
              && tableSize == (if shrinks && allocOk then |s| / 2 else |s|)
              && ok == (found && (shrinks ==> allocOk))
              && (tableSize == |s| ==> entries[..] == if found then s[Find(s, h) := Entry(0, Handle(0, 0))] else s)
    {
      StepKeepsInv(Abs(), initialSize, Op.Delete(h, allocOk));
      assert initialSize >= 1 && tableSize >= 1;
      hide Inv, ProbeEnds;
      ghost var before := Abs();
      var entries := this.entries;
      var pos := FindEntryPos(this.entries, h);
      LookupAt(before.slots, h, pos);
      if entries[pos].hash == 0 {
        return false;
      }
      entries[pos] := EMPTY;
      entryCount := entryCount - 1;
      if entryCount < tableSize / 4 && tableSize > initialSize {
        ok := ResizeEntriesTable(false, allocOk);
        return;
      }
      return true;
    }
  }
}
