/** The map of src/datastruct/map.c as its header means it, after five repairs:
    - R1: a set re-reads the table pointer after a growth (the source writes through the freed one);
    - R2: a resize probes for a free slot (the source overwrites on collision);
    - R3: a delete closes the probe run by shifting entries back (the source leaves a hole);
    - R4: a set under hash zero is refused (zero marks an empty slot);
    - R5: a failed growth restores the count (the source leaves it incremented).
    Probing, load limits, doubling, halving and replies are those of the source. */
module RepairedMap {
  import opened Doubling
  import opened Table
  import HM = HashMap

  // ---------------------------------------------------------------- the entries of a slot list

  /** The number of occupied slots is the number of keys. */
  lemma {:induction false} OccupancyIsSize(s: Slots, m: Contents)
    requires Lists(s, m)
    ensures Occupancy(s) == |m|
    decreases |m|
  {
    if |m| == 0 {
      assert m == map[];
      BlankIsVacant(s);
    } else {
      var k :| k in m;
      var pos :| 0 <= pos < |s| && s[pos].hash == k;
      HM.PunchLists(s, m, pos);
      assert (m - {k}).Keys == m.Keys - {k};
      OccupancyUpdate(s, pos, EMPTY);
      OccupancyIsSize(s[pos := EMPTY], m - {k});
    }
  }

  // ---------------------------------------------------------------- closing a hole by shifting back

  /** The table is well formed except that the probe runs of entries at `j` or further on may pass
      through the hole; `e` is an empty slot that the scan cannot go beyond. */
  predicate Shifting(s: Slots, hole: int, j: int, e: int) {
    && 0 <= hole < |s| && 0 <= j < |s| && 0 <= e < |s|
    && s[hole].hash == 0 && s[e].hash == 0
    && 0 < Distance(hole, j, |s|) <= Distance(hole, e, |s|)
    && forall q :: 0 <= q < |s| && s[q].hash != 0 ==> OnlyHole(s, hole, j, q)
  }

  predicate OnlyHole(s: Slots, hole: nat, j: nat, q: nat)
    requires hole < |s| && j < |s| && q < |s|
  {
    forall p :: 0 <= p < |s| && s[p].hash == 0 && InRun(Home(s[q].hash, |s|), p, q) ==>
                  p == hole && Distance(hole, q, |s|) >= Distance(hole, j, |s|)
  }

  lemma ShiftStart(s: Slots, pos: nat, e: nat)
    requires Unbroken(s) && Occupied(s, pos) && e < |s| && s[e].hash == 0
    ensures Shifting(s[pos := EMPTY], pos, Next(pos, |s|), e)
  {
    var t := s[pos := EMPTY];
    forall q | 0 <= q < |t| && t[q].hash != 0
      ensures OnlyHole(t, pos, Next(pos, |s|), q)
    {
      assert Reachable(s, q);
    }
  }

  lemma ShiftMove(s: Slots, hole: nat, j: nat, e: nat)
    requires Shifting(s, hole, j, e) && s[j].hash != 0 && InRun(Home(s[j].hash, |s|), hole, j)
    ensures Shifting(s[hole := s[j]][j := EMPTY], j, Next(j, |s|), e)
  {
    var t := s[hole := s[j]][j := EMPTY];
    forall q | 0 <= q < |t| && t[q].hash != 0
      ensures OnlyHole(t, j, Next(j, |s|), q)
    {
      if q == hole {
        assert OnlyHole(s, hole, j, j);
      } else {
        assert OnlyHole(s, hole, j, q);
      }
    }
  }

  lemma ShiftSkip(s: Slots, hole: nat, j: nat, e: nat)
    requires Shifting(s, hole, j, e) && s[j].hash != 0 && !InRun(Home(s[j].hash, |s|), hole, j)
    ensures Shifting(s, hole, Next(j, |s|), e)
  {
    forall q | 0 <= q < |s| && s[q].hash != 0
      ensures OnlyHole(s, hole, Next(j, |s|), q)
    {
      assert OnlyHole(s, hole, j, q);
    }
  }

  lemma ShiftDone(s: Slots, hole: nat, j: nat, e: nat)
    requires Shifting(s, hole, j, e) && s[j].hash == 0
    ensures Unbroken(s)
  {
    forall q | 0 <= q < |s| && s[q].hash != 0
      ensures Reachable(s, q)
    {
      assert OnlyHole(s, hole, j, q);
    }
  }

  /** The state of the shifting scan: the table still lists `m`, in `c` occupied slots. */
  ghost predicate Closing(s: Slots, m: Contents, c: int, hole: int, j: int, e: int) {
    Shifting(s, hole, j, e) && Lists(s, m) && Occupancy(s) == c
  }

  lemma ClosingStarts(s: Slots, m: Contents, pos: nat, e: nat)
    requires Represents(s, m) && Occupied(s, pos) && e < |s| && s[e].hash == 0
    ensures Closing(s[pos := EMPTY], m - {s[pos].hash}, Occupancy(s) - 1, pos, Next(pos, |s|), e)
  {
    HM.PunchLists(s, m, pos);
    OccupancyUpdate(s, pos, EMPTY);
    ShiftStart(s, pos, e);
  }

  lemma ClosingMoves(s: Slots, m: Contents, c: int, hole: nat, j: nat, e: nat)
    requires Closing(s, m, c, hole, j, e) && s[j].hash != 0 && InRun(Home(s[j].hash, |s|), hole, j)
    ensures Closing(s[hole := s[j]][j := EMPTY], m, c, j, Next(j, |s|), e)
  {
    ShiftMove(s, hole, j, e);
    MoveLists(s, m, hole, j);
    MoveOccupancy(s, hole, j);
  }

  lemma ClosingSkips(s: Slots, m: Contents, c: int, hole: nat, j: nat, e: nat)
    requires Closing(s, m, c, hole, j, e) && s[j].hash != 0 && !InRun(Home(s[j].hash, |s|), hole, j)
    ensures Closing(s, m, c, hole, Next(j, |s|), e)
  {
    ShiftSkip(s, hole, j, e);
  }

  /** The scan stays inside the table, and comes nearer to the empty slot it cannot go beyond. */
  lemma ClosingBounds(s: Slots, m: Contents, c: int, hole: int, j: int, e: int)
    requires Closing(s, m, c, hole, j, e)
    ensures 0 <= hole < |s| && 0 <= j < |s| && 0 <= e < |s| && hole != j
    ensures s[j].hash != 0 ==> Distance(Next(j, |s|), e, |s|) < Distance(j, e, |s|)
  {
  }

  lemma ClosingDone(s: Slots, m: Contents, c: int, hole: nat, j: nat, e: nat)
    requires Closing(s, m, c, hole, j, e) && s[j].hash == 0
    ensures Represents(s, m)
  {
    ShiftDone(s, hole, j, e);
  }

  lemma ClosingCount(s: Slots, m: Contents, c: int, hole: int, j: int, e: int)
    requires Closing(s, m, c, hole, j, e)
    ensures Occupancy(s) == c
  {
  }

  lemma MoveLists(s: Slots, m: Contents, hole: nat, j: nat)
    requires Lists(s, m) && hole < |s| && j < |s| && s[hole].hash == 0 && s[j].hash != 0
    ensures Lists(s[hole := s[j]][j := EMPTY], m)
  {
    var t := s[hole := s[j]][j := EMPTY];
    assert forall i :: 0 <= i < |s| ==> t[i] == if i == j then EMPTY else if i == hole then s[j] else s[i];
    forall k | k in m
      ensures Stored(t, k)
    {
      var i :| 0 <= i < |s| && s[i].hash == k;
      assert t[if i == j then hole else i].hash == k;
    }
  }

  lemma MoveOccupancy(s: Slots, hole: nat, j: nat)
    requires hole < |s| && j < |s| && s[hole].hash == 0 && s[j].hash != 0
    ensures Occupancy(s[hole := s[j]][j := EMPTY]) == Occupancy(s)
  {
    OccupancyUpdate(s, hole, s[j]);
    OccupancyUpdate(s[hole := s[j]], j, EMPTY);
  }

  // ---------------------------------------------------------------- re-inserting one entry while resizing

  lemma {:induction false} PrefixOccupancy(s: Slots, i: nat)
    requires i <= |s|
    ensures Occupancy(s[..i]) <= Occupancy(s)
    ensures i < |s| && s[i].hash != 0 ==> Occupancy(s[..i]) < Occupancy(s)
    decreases |s| - i
  {
    if i == |s| {
      assert s[..i] == s;
    } else {
      PrefixOccupancy(s, i + 1);
      assert s[..i + 1][..i] == s[..i];
    }
  }

  /** The new table `t` holds exactly the first `i` slots' worth of old entries. */
  ghost predicate Rebuilt(t: Slots, s: Slots, i: nat)
    requires i <= |s|
  {
    Represents(t, MapOf(s[..i])) && Occupancy(t) == Occupancy(s[..i])
  }

  lemma RebuiltStart(t: Slots, s: Slots)
    requires |t| > 0 && forall j :: 0 <= j < |t| ==> t[j] == EMPTY
    ensures Rebuilt(t, s, 0)
  {
    BlankIsVacant(t);
    RoomMeansEmpty(t);
  }

  lemma RebuiltSkips(t: Slots, s: Slots, i: nat)
    requires i < |s| && s[i].hash == 0 && Rebuilt(t, s, i)
    ensures Rebuilt(t, s, i + 1)
  {
    assert s[..i + 1][..i] == s[..i];
  }

  /** Probing for the next old entry in the new table and writing it there. */
  lemma RebuiltInserts(t: Slots, s: Slots, m: Contents, i: nat, pos: int)
    requires i < |s| && s[i].hash != 0 && Lists(s, m) && Rebuilt(t, s, i)
    requires ProbeEnds(t, s[i].hash, pos) && Occupancy(s) < |t|
    ensures Rebuilt(t[pos := s[i]], s, i + 1)
  {
    assert 0 <= pos < |t|;
    hide Represents, Lists, ProbeEnds, MapOf, Occupancy;
    NextEntry(s, m, i);
    AbsentEndsEmpty(t, MapOf(s[..i]), s[i].hash, pos);
    PrefixOccupancy(s, i + 1);
    PutStandsForOne(t, MapOf(s[..i]), s[i], pos);
  }

  lemma NextEntry(s: Slots, m: Contents, i: nat)
    requires i < |s| && s[i].hash != 0 && Lists(s, m)
    ensures s[i].value.data != 0 && s[i].hash !in MapOf(s[..i])
    ensures MapOf(s[..i + 1]) == MapOf(s[..i])[s[i].hash := s[i].value]
    ensures Occupancy(s[..i + 1]) == Occupancy(s[..i]) + 1
  {
    NotSeenBefore(s, i);
    assert s[..i + 1][..i] == s[..i];
  }

  lemma AbsentEndsEmpty(t: Slots, m: Contents, h: Hash, pos: int)
    requires Represents(t, m) && h !in m && ProbeEnds(t, h, pos)
    ensures t[pos].hash == 0
  {
    RepresentsLookup(t, m, h);
    LookupAt(t, h, pos);
  }

  lemma NotSeenBefore(s: Slots, i: nat)
    requires i < |s| && s[i].hash != 0 && Distinct(s)
    ensures s[i].hash !in MapOf(s[..i])
  {
    assert forall j :: 0 <= j < i ==> s[..i][j] == s[j];
    MapOfEntries(s[..i]);
  }

  lemma PutStandsForOne(t: Slots, m: Contents, e: Entry, pos: int)
    requires Represents(t, m) && ProbeEnds(t, e.hash, pos) && t[pos].hash == 0
    requires e.hash != 0 && e.value.data != 0 && Occupancy(t) + 1 < |t|
    ensures Represents(t[pos := e], m[e.hash := e.value]) && Occupancy(t[pos := e]) == Occupancy(t) + 1
  {
    hide Represents;
    OccupancyUpdate(t, pos, e);
    RoomMeansEmpty(t[pos := e]);
    PutRepresents(t, m, e.hash, e.value, pos);
  }

  /** A probe in the new table does not fail. */
  lemma RebuiltHasRoom(t: Slots, s: Slots, i: nat)
    requires i <= |s| && Rebuilt(t, s, i)
    ensures HasEmpty(t)
  {
  }

  lemma RebuiltDone(t: Slots, s: Slots, m: Contents)
    requires Lists(s, m) && Rebuilt(t, s, |s|)
    ensures Represents(t, m) && Occupancy(t) == Occupancy(s)
  {
    assert s[..|s|] == s;
    MapOfListed(s, m);
  }

  // ---------------------------------------------------------------- the map

  lemma SomeEmpty(s: Slots, m: Contents) returns (e: nat)
    requires Represents(s, m)
    ensures e < |s| && s[e].hash == 0
  {
    e :| 0 <= e < |s| && s[e].hash == 0;
  }

  lemma RepresentsLists(s: Slots, m: Contents)
    requires Represents(s, m)
    ensures Lists(s, m) && |s| > 0
  {
  }

  ghost predicate StandsFor(s: Slots, m: Contents, count: int, initial: nat) {
    && 1 <= initial && IsDoubling(|s|, initial)
    && Represents(s, m)
    && Occupancy(s) == count <= |s| / 2
  }

  /** Writing an entry where its probe ends, when the load limit leaves room for it. */
  lemma PutStandsFor(s: Slots, m: Contents, count: int, initial: nat, h: Hash, v: Handle, pos: int)
    requires 1 <= initial && IsDoubling(|s|, initial) && Represents(s, m) && Occupancy(s) == count <= |s| / 2
    requires h != 0 && v.data != 0 && ProbeEnds(s, h, pos)
    requires h !in m ==> count + 1 <= |s| / 2
    ensures StandsFor(s[pos := Entry(h, v)], m[h := v], if h in m then count else count + 1, initial)
  {
    var t := s[pos := Entry(h, v)];
    RepresentsLookup(s, m, h);
    LookupAt(s, h, pos);
    OccupancyUpdate(s, pos, Entry(h, v));
    DoublingIsPositive(|s|, initial);
    RoomMeansEmpty(t);
    PutRepresents(s, m, h, v, pos);
  }

  /** A new entry under this hash would take the table past half load. */
  predicate NeedsGrowth(m: Contents, tableSize: nat, h: Hash) {
    h !in m && |m| + 1 > tableSize / 2
  }

  /** A valid value can be stored under this hash, where `allocOk` says whether a growth can be had. */
  predicate Storable(m: Contents, tableSize: nat, h: Hash, allocOk: bool) {
    h != 0 && (NeedsGrowth(m, tableSize, h) ==> allocOk)
  }

  /** With this many keys left the table is below quarter load and above its initial size. */
  predicate NeedsShrink(left: int, tableSize: nat, initial: nat) {
    left < tableSize / 4 && tableSize > initial
  }

  function SizeAfterSet(m: Contents, tableSize: nat, h: Hash): nat {
    if NeedsGrowth(m, tableSize, h) then 2 * tableSize else tableSize
  }

  function SizeAfterDelete(left: int, tableSize: nat, initial: nat, allocOk: bool): nat {
    if NeedsShrink(left, tableSize, initial) && allocOk then tableSize / 2 else tableSize
  }

  class Map {
    const initialSize: nat
    var entries: array<Entry>
    var entryCount: nat
    var tableSize: nat
    /** The partial map the table stands for. */
    ghost var contents: Contents

    ghost predicate Valid()
      reads this, entries
    {
      && entries.Length == tableSize
      && StandsFor(entries[..], contents, entryCount, initialSize)
    }

    constructor (initialSize: nat)
      requires initialSize >= 1
      ensures Valid() && fresh(entries) && contents == map[] && this.initialSize == initialSize == tableSize
    {
      this.initialSize := initialSize;
      entryCount := 0;
      tableSize := initialSize;
      entries := new Entry[initialSize](_ => EMPTY);
      contents := map[];
      new;
      BlankIsVacant(entries[..]);
      RoomMeansEmpty(entries[..]);
    }

    lemma ValidListsContents()
      requires Valid()
      ensures tableSize == entries.Length > 0 && Lists(entries[..], contents) && entryCount == |contents|
    {
      OccupancyIsSize(entries[..], contents);
    }

    /** `resize_entries_table` with R2. */
    method ResizeEntriesTable(isGrow: bool, allocOk: bool) returns (ok: bool)
      requires entries.Length == tableSize >= 1 && Lists(entries[..], contents)
      requires Occupancy(entries[..]) < if isGrow then 2 * tableSize else tableSize / 2
      modifies this
      ensures ok == allocOk && entryCount == old(entryCount) && contents == old(contents)
      ensures !ok ==> entries == old(entries) && tableSize == old(tableSize)
      ensures ok ==> fresh(entries) && entries.Length == tableSize
      ensures ok ==> tableSize == if isGrow then 2 * old(tableSize) else old(tableSize) / 2
      ensures ok ==> Represents(entries[..], contents) && Occupancy(entries[..]) == Occupancy(old(entries[..]))
    {
      hide Rebuilt, Lists, Represents, Occupancy;
      var newTableSize := if isGrow then tableSize * 2 else tableSize / 2;
      if !allocOk {
        return false;
      }
      var oldEntries := entries;
      ghost var was := oldEntries[..];
      var newEntries := new Entry[newTableSize](_ => EMPTY);
      RebuiltStart(newEntries[..], was);
      var i := 0;
      while i < tableSize
        invariant 0 <= i <= tableSize && unchanged(this) && unchanged(oldEntries) && fresh(newEntries)
        invariant Rebuilt(newEntries[..], was, i)
      {
        ghost var t := newEntries[..];
        if oldEntries[i].hash != 0 {
          var newPos := FindEntryPos(newEntries, oldEntries[i].hash);
          RebuiltHasRoom(t, was, i);
          RebuiltInserts(t, was, contents, i, newPos);
          newEntries[newPos] := oldEntries[i];
          assert newEntries[..] == t[newPos := was[i]];
        } else {
          RebuiltSkips(t, was, i);
        }
        i := i + 1;
      }
      RebuiltDone(newEntries[..], was, contents);
      tableSize := newTableSize;
      entries := newEntries;
      return true;
    }

    /** `find_entry_pos` on a table that represents its contents. */
    method Locate(h: Hash) returns (pos: nat)
      requires entries.Length > 0 && Represents(entries[..], contents)
      ensures ProbeEnds(entries[..], h, pos)
      ensures if h in contents then entries[pos] == Entry(h, contents[h]) else entries[pos].hash == 0
    {
      pos := FindEntryPos(entries, h);
      RepresentsLookup(entries[..], contents, h);
      LookupAt(entries[..], h, pos);
    }

    /** The table is ready for an entry with hash `h`, which `entryCount` already includes. */
    ghost predicate Claimed(h: Hash)
      reads this, entries
    {
      && entries.Length == tableSize && 1 <= initialSize && IsDoubling(tableSize, initialSize)
      && Represents(entries[..], contents)
      && Occupancy(entries[..]) == (if h in contents then entryCount else entryCount - 1)
      && entryCount <= tableSize / 2
    }

    /** The first half of `do_set`: find the slot, count a new entry, grow when half load is passed. */
    method Claim(h: Hash, allocOk: bool) returns (ok: bool, pos: nat)
      requires Valid()
      modifies this
      ensures contents == old(contents) && (entries == old(entries) || fresh(entries))
      ensures ok <==> h in contents || old(entryCount) + 1 <= old(tableSize) / 2 || allocOk
      ensures if ok then Claimed(h) && ProbeEnds(entries[..], h, pos) else Valid()
      ensures tableSize ==
              if ok && h !in contents && old(entryCount) + 1 > old(tableSize) / 2
              then 2 * old(tableSize) else old(tableSize)
    {
      pos := Locate(h);
      if entries[pos].hash != 0 {
        return true, pos;
      }
      entryCount := entryCount + 1;
      if entryCount <= tableSize / 2 {
        return true, pos;
      }
      DoubleIsDoubling(tableSize, initialSize);
      ok := ResizeEntriesTable(true, allocOk);
      if ok {
        pos := Locate(h);
      } else {
        entryCount := entryCount - 1;
      }
    }

    /** The two assignments at the end of `do_set`, with `entryCount` already brought up to date. */
    method Write(pos: nat, h: Hash, v: Handle)
      requires Claimed(h) && ProbeEnds(entries[..], h, pos) && h != 0 && v.data != 0
      modifies this`contents, entries
      ensures Valid() && contents == old(contents)[h := v]
    {
      ghost var s := entries[..];
      PutStandsFor(s, contents, Occupancy(s), initialSize, h, v, pos);
      entries[pos] := Entry(h, v);
      assert entries[..] == s[pos := Entry(h, v)];
      contents := contents[h := v];
    }

    /** `do_set` with R1, R4 and R5. It fails exactly when the value is invalid, the hash is zero, or a
        growth is needed and cannot be had; then nothing changes. */
    method Set(h: Hash, v: Handle, allocOk: bool) returns (ok: bool)
      requires Valid()
      modifies this, entries
      ensures Valid() && (entries == old(entries) || fresh(entries))
      ensures ok <==> v.data != 0 && Storable(old(contents), old(tableSize), h, allocOk)
      ensures contents == if ok then old(contents)[h := v] else old(contents)
      ensures tableSize == if ok then SizeAfterSet(old(contents), old(tableSize), h) else old(tableSize)
      ensures var needed := h !in old(contents) && 2 * (|old(contents)| + 1) > old(tableSize);
              && ok == (v.data != 0 && h != 0 && (needed ==> allocOk))
              && tableSize == if ok && needed then 2 * old(tableSize) else old(tableSize)
    {
      if v.data == 0 || h == 0 {
        return false;
      }
      OccupancyIsSize(entries[..], contents);
      var pos;
      ok, pos := Claim(h, allocOk);
      if ok {
        Write(pos, h, v);
      }
    }

    /** `do_get` */
    method Get(h: Hash) returns (value: Handle)
      requires Valid()
      ensures value == ValueIn(contents, h) == if h in contents then contents[h] else Handle(0, 0)
    {
      var pos := Locate(h);
      if entries[pos].hash == 0 {
        return NULL_HANDLE;
      }
      return entries[pos].value;
    }

    method ShiftBack(hole: nat, j: nat)
      requires hole < entries.Length && j < entries.Length
      modifies entries
      ensures entries[..] == old(entries[..])[hole := old(entries[j])][j := EMPTY]
    {
      entries[hole] := entries[j];
      entries[j] := EMPTY;
    }

    /** R3: entries whose probe passed through the freed slot are shifted back into it. */
    method CloseRun(pos: nat)
      requires entries.Length == tableSize && pos < tableSize && entries[pos].hash != 0
      requires Represents(entries[..], contents)
      modifies this`contents, entries
      ensures contents == old(contents) - {old(entries[pos].hash)}
      ensures Represents(entries[..], contents)
      ensures Occupancy(entries[..]) + 1 == Occupancy(old(entries[..]))
    {
      hide Closing, Represents, Occupancy, InRun, Home, Distance;
      ghost var e := SomeEmpty(entries[..], contents);
      ghost var m := contents - {entries[pos].hash};
      ghost var c := Occupancy(entries[..]) - 1;
      ghost var s := entries[..];
      ClosingStarts(s, contents, pos, e);
      var hole := pos;
      entries[hole] := EMPTY;
      var j := Next(hole, tableSize);
      assert entries[..] == s[pos := EMPTY];
      ClosingBounds(entries[..], m, c, hole, j, e);
      while entries[j].hash != 0
        invariant 0 <= hole < tableSize && 0 <= j < tableSize && 0 <= e < tableSize && hole != j
        invariant Closing(entries[..], m, c, hole, j, e)
        invariant contents == old(contents)
        decreases Distance(j, e, tableSize)
      {
        s := entries[..];
        ClosingBounds(s, m, c, hole, j, e);
        if InRun(Home(entries[j].hash, tableSize), hole, j) {
          ClosingMoves(s, m, c, hole, j, e);
          ShiftBack(hole, j);
          hole := j;
        } else {
          ClosingSkips(s, m, c, hole, j, e);
        }
        j := Next(j, tableSize);
        ClosingBounds(entries[..], m, c, hole, j, e);
      }
      ClosingDone(entries[..], m, c, hole, j, e);
      ClosingCount(entries[..], m, c, hole, j, e);
      contents := m;
    }

    /** The end of `do_delete`: halve a table that is below quarter load. */
    method Shrink(allocOk: bool) returns (ok: bool)
      requires Valid() && entryCount < tableSize / 4 && tableSize > initialSize
      modifies this
      ensures Valid() && (entries == old(entries) || fresh(entries)) && contents == old(contents)
      ensures ok == allocOk && tableSize == if ok then old(tableSize) / 2 else old(tableSize)
    {
      hide Represents, Lists, Occupancy, IsDoubling;
      RepresentsLists(entries[..], contents);
      DoublingIsPositive(tableSize, initialSize);
      ok := ResizeEntriesTable(false, allocOk);
    }

    /** `do_delete` with R3. It answers false when the key was absent or the table could not shrink. */
    method Delete(h: Hash, allocOk: bool) returns (ok: bool)
      requires Valid()
      modifies this, entries
      ensures Valid() && (entries == old(entries) || fresh(entries))
      ensures contents == old(contents) - {h}
      ensures ok <==>
              h in old(contents) && (NeedsShrink(|old(contents)| - 1, old(tableSize), initialSize) ==> allocOk)
      ensures tableSize ==
              if h in old(contents) then SizeAfterDelete(|old(contents)| - 1, old(tableSize), initialSize, allocOk)
              else old(tableSize)
      ensures var needed := h in old(contents) && 4 * |old(contents)| <= old(tableSize) && old(tableSize) > initialSize;
              && ok == (h in old(contents) && (needed ==> allocOk))
              && tableSize == if needed && allocOk then old(tableSize) / 2 else old(tableSize)
    {
      ValidListsContents();
      hide Represents, Lists, Occupancy, IsDoubling;
      var pos := Locate(h);
      if entries[pos].hash == 0 {
        NotAKey(h);
        return false;
      }
      CloseRun(pos);
      entryCount := entryCount - 1;
      if entryCount < tableSize / 4 && tableSize > initialSize {
        ok := Shrink(allocOk);
        return;
      }
      return true;
    }

    lemma NotAKey(h: Hash)
      requires Valid() && (h in contents ==> h == 0)
      ensures h !in contents && contents - {h} == contents
    {
    }
  }

  // ---------------------------------------------------------------- runs

  /** What a map holds at some moment, and how many slots its table has. */
  datatype Moment = Moment(contents: Contents, slots: nat)

  /** What one operation replies and does, with every limit written out. */
  predicate Follows(a: Moment, op: HM.Op, reply: HM.Reply, b: Moment, initial: nat) {
    match op
    case Set(h, v, allocOk) =>
      var grows := h !in a.contents && 2 * (|a.contents| + 1) > a.slots;
      var ok := v.data != 0 && h != 0 && (grows ==> allocOk);
      reply == HM.Done(ok)
      && b == if ok then Moment(a.contents[h := v], if grows then 2 * a.slots else a.slots) else a
    case Get(h) =>
      reply == HM.Value(if h in a.contents then a.contents[h] else Handle(0, 0)) && b == a
    case Delete(h, allocOk) =>
      var shrinks := h in a.contents && 4 * |a.contents| <= a.slots && a.slots > initial;
      reply == HM.Done(h in a.contents && (shrinks ==> allocOk))
      && b == Moment(a.contents - {h}, if shrinks && allocOk then a.slots / 2 else a.slots)
  }

  ghost predicate AllFollow(moments: seq<Moment>, ops: seq<HM.Op>, replies: seq<HM.Reply>, initial: nat) {
    && |moments| == |ops| + 1 == |replies| + 1
    && forall i :: 0 <= i < |ops| ==> Follows(moments[i], ops[i], replies[i], moments[i + 1], initial)
  }

  method PerformOne(mp: Map, op: HM.Op) returns (reply: HM.Reply)
    requires mp.Valid()
    modifies mp, mp.entries
    ensures mp.Valid() && (mp.entries == old(mp.entries) || fresh(mp.entries))
    ensures Follows(old(Moment(mp.contents, mp.tableSize)), op, reply, Moment(mp.contents, mp.tableSize),
                    mp.initialSize)
  {
    hide StandsFor, SizeAfterSet, SizeAfterDelete, Storable, NeedsShrink;
    match op {
      case Set(h, v, allocOk) =>
        var ok := mp.Set(h, v, allocOk);
        reply := HM.Done(ok);
      case Get(h) =>
        var value := mp.Get(h);
        reply := HM.Value(value);
      case Delete(h, allocOk) =>
        var ok := mp.Delete(h, allocOk);
        reply := HM.Done(ok);
    }
  }

  /** Any run of sets, gets and deletes, with resizes succeeding or failing as they may, told moment by moment:
      every get answers the handle last set under that hash and not deleted since, or the invalid handle, and
      every other reply and every size is that of `Follows`. */
  method Perform(mp: Map, ops: seq<HM.Op>) returns (replies: seq<HM.Reply>, ghost moments: seq<Moment>)
    requires mp.Valid()
    modifies mp, mp.entries
    ensures mp.Valid() && (mp.entries == old(mp.entries) || fresh(mp.entries))
    ensures |replies| == |ops| && |moments| == |ops| + 1 && AllFollow(moments, ops, replies, mp.initialSize)
    ensures moments[0] == old(Moment(mp.contents, mp.tableSize))
    ensures moments[|ops|] == Moment(mp.contents, mp.tableSize)
    ensures HM.GetsAnswer(old(mp.contents), ops, replies)
    ensures mp.contents == HM.ExpectedAfter(old(mp.contents), ops, replies)
    decreases |ops|
  {
    ghost var before := Moment(mp.contents, mp.tableSize);
    if |ops| == 0 {
      return [], [before];
    }
    hide *;
    var reply := PerformOne(mp, ops[0]);
    ghost var next := Moment(mp.contents, mp.tableSize);
    var rest;
    ghost var later;
    rest, later := Perform(mp, ops[1..]);
    replies, moments := [reply] + rest, [before] + later;
    FollowsFirst(before, next, ops, reply, rest, later, mp.initialSize);
    FollowsExpected(before, ops[0], reply, next, mp.initialSize);
    AnswersCons(before.contents, ops, reply, rest);
  }

  /** With memory to be had, a set of a valid handle under a nonzero hash sets it and answers true; a delete
      takes its key out and answers whether it was there. */
  lemma FollowsWithMemory(moments: seq<Moment>, ops: seq<HM.Op>, replies: seq<HM.Reply>, initial: nat, i: nat)
    requires AllFollow(moments, ops, replies, initial) && i < |ops| && HM.ResizesSucceed(ops[i])
    ensures var m, m' := moments[i].contents, moments[i + 1].contents;
            match ops[i]
            case Set(h, v, _) =>
              if h != 0 && v.data != 0 then replies[i] == HM.Done(true) && m' == m[h := v]
              else replies[i] == HM.Done(false) && m' == m
            case Get(h) => replies[i] == HM.Value(if h in m then m[h] else Handle(0, 0)) && m' == m
            case Delete(h, _) => replies[i] == HM.Done(h in m) && m' == m - {h}
  {
    assert Follows(moments[i], ops[i], replies[i], moments[i + 1], initial);
  }

  lemma FollowsFirst(before: Moment, next: Moment, ops: seq<HM.Op>, reply: HM.Reply, rest: seq<HM.Reply>,
                     later: seq<Moment>, initial: nat)
    requires |ops| > 0 && Follows(before, ops[0], reply, next, initial)
    requires AllFollow(later, ops[1..], rest, initial) && later[0] == next
    ensures AllFollow([before] + later, ops, [reply] + rest, initial)
  {
    hide Follows;
    var moments, replies := [before] + later, [reply] + rest;
    forall i | 0 <= i < |ops|
      ensures Follows(moments[i], ops[i], replies[i], moments[i + 1], initial)
    {
      if i > 0 {
        assert Follows(later[i - 1], ops[1..][i - 1], rest[i - 1], later[i], initial);
      }
    }
  }

  lemma FollowsExpected(a: Moment, op: HM.Op, reply: HM.Reply, b: Moment, initial: nat)
    requires Follows(a, op, reply, b, initial)
    ensures b.contents == HM.Expected(a.contents, op, reply)
    ensures op.Get? ==> reply == HM.Value(ValueIn(a.contents, op.h))
  {
  }

  lemma AnswersCons(m: Contents, ops: seq<HM.Op>, reply: HM.Reply, rest: seq<HM.Reply>)
    requires |ops| > 0 && |rest| == |ops| - 1
    requires ops[0].Get? ==> reply == HM.Value(ValueIn(m, ops[0].h))
    requires HM.GetsAnswer(HM.Expected(m, ops[0], reply), ops[1..], rest)
    ensures HM.GetsAnswer(m, ops, [reply] + rest)
    ensures HM.ExpectedAfter(m, ops, [reply] + rest) ==
            HM.ExpectedAfter(HM.Expected(m, ops[0], reply), ops[1..], rest)
  {
    assert ([reply] + rest)[1..] == rest;
  }

  // ---------------------------------------------------------------- how full the table gets

  predicate Steady(a: Moment, b: Moment, c: Moment) {
    (b.slots > a.slots ==> c.slots >= b.slots) && (b.slots < a.slots ==> c.slots <= b.slots)
  }

  /** A growth is never followed at once by a shrink, nor a shrink by a growth, whether other resizes succeed or
      not. */
  lemma NoThrashing(moments: seq<Moment>, ops: seq<HM.Op>, replies: seq<HM.Reply>, initial: nat, i: nat)
    requires AllFollow(moments, ops, replies, initial) && i + 1 < |ops|
    ensures moments[i + 1].slots > moments[i].slots ==> moments[i + 2].slots >= moments[i + 1].slots
    ensures moments[i + 1].slots < moments[i].slots ==> moments[i + 2].slots <= moments[i + 1].slots
    ensures Steady(moments[i], moments[i + 1], moments[i + 2])
  {
    assert Follows(moments[i], ops[i], replies[i], moments[i + 1], initial);
    assert Follows(moments[i + 1], ops[i + 1], replies[i + 1], moments[i + 2], initial);
    KeysChange(moments[i], ops[i], replies[i], moments[i + 1], initial);
  }

  lemma KeysChange(a: Moment, op: HM.Op, reply: HM.Reply, b: Moment, initial: nat)
    requires Follows(a, op, reply, b, initial)
    ensures |b.contents| ==
            if op.Set? && reply == HM.Done(true) && op.h !in a.contents then |a.contents| + 1
            else if op.Delete? && op.h in a.contents then |a.contents| - 1
            else |a.contents|
  {
    if op.Set? {
      assert a.contents[op.h := op.v].Keys == a.contents.Keys + {op.h};
      if op.h in a.contents {
        assert a.contents.Keys + {op.h} == a.contents.Keys;
      }
    } else if op.Delete? {
      assert (a.contents - {op.h}).Keys == a.contents.Keys - {op.h};
    }
  }

  /** At most half full; above the initial size, at least a quarter full. */
  predicate Balanced(a: Moment, initial: nat) {
    2 * |a.contents| <= a.slots && (a.slots > initial ==> a.slots / 4 <= |a.contents|)
  }

  /** At least two slots for every key; and, above the initial size, at most four, and three more when the initial
      size is odd. */
  predicate WithinLimits(a: Moment, initial: nat) {
    var keys, slots := |a.contents|, a.slots;
    && 2 * keys <= slots && (slots <= initial || slots <= 4 * keys + 3)
    && (slots <= initial || initial % 2 == 1 || slots <= 4 * keys)
  }

  lemma StepKeepsBalance(a: Moment, op: HM.Op, reply: HM.Reply, b: Moment, initial: nat)
    requires Follows(a, op, reply, b, initial) && HM.ResizesSucceed(op)
    requires 1 <= initial && IsDoubling(a.slots, initial) && Balanced(a, initial)
    ensures IsDoubling(b.slots, initial) && Balanced(b, initial)
  {
    KeysChange(a, op, reply, b, initial);
    DoublingIsPositive(a.slots, initial);
    DoubleIsDoubling(a.slots, initial);
    hide IsDoubling;
  }

  /** Over every run in which resizes succeed, a table above its initial size has at least a quarter of its slots
      in use, at every moment: it never has more slots than its initial size or four times its keys (plus three
      when the initial size is odd). */
  lemma {:induction false} RunKeepsBalance(moments: seq<Moment>, ops: seq<HM.Op>, replies: seq<HM.Reply>,
                                           initial: nat, i: nat)
    requires AllFollow(moments, ops, replies, initial) && forall k :: 0 <= k < |ops| ==> HM.ResizesSucceed(ops[k])
    requires 1 <= initial && IsDoubling(moments[0].slots, initial) && Balanced(moments[0], initial)
    requires i <= |ops|
    ensures IsDoubling(moments[i].slots, initial) && Balanced(moments[i], initial)
    ensures WithinLimits(moments[i], initial)
    ensures var keys, slots := |moments[i].contents|, moments[i].slots;
            && 2 * keys <= slots && (slots <= initial || slots <= 4 * keys + 3)
            && (slots <= initial || initial % 2 == 1 || slots <= 4 * keys)
  {
    if i > 0 {
      RunKeepsBalance(moments, ops, replies, initial, i - 1);
      hide Follows;
      assert Follows(moments[i - 1], ops[i - 1], replies[i - 1], moments[i], initial);
      StepKeepsBalance(moments[i - 1], ops[i - 1], replies[i - 1], moments[i], initial);
    }
    if moments[i].slots > initial && initial % 2 == 0 {
      DoublingOfEven(moments[i].slots, initial);
    }
  }

  /** The two together, for a run that starts on a new map. */
  lemma RunFromNew(moments: seq<Moment>, ops: seq<HM.Op>, replies: seq<HM.Reply>, initial: nat)
    requires |moments| == |ops| + 1 && AllFollow(moments, ops, replies, initial)
    requires initial >= 1 && moments[0] == Moment(map[], initial)
    ensures forall i :: 0 <= i < |ops| - 1 ==> Steady(moments[i], moments[i + 1], moments[i + 2])
    ensures (forall k :: 0 <= k < |ops| ==> HM.ResizesSucceed(ops[k])) ==>
              forall i :: 0 <= i <= |ops| ==> WithinLimits(moments[i], initial)
  {
    assert Balanced(moments[0], initial) && IsDoubling(initial, initial);
    hide *;
    forall i | 0 <= i < |ops| - 1
      ensures Steady(moments[i], moments[i + 1], moments[i + 2])
    {
      NoThrashing(moments, ops, replies, initial, i);
    }
    if forall k :: 0 <= k < |ops| ==> HM.ResizesSucceed(ops[k]) {
      forall i | 0 <= i <= |ops|
        ensures WithinLimits(moments[i], initial)
      {
        RunKeepsBalance(moments, ops, replies, initial, i);
      }
    }
  }

  /** Any run on a new map. A growth is never followed at once by a shrink, nor a shrink by a growth; and when
      resizes succeed, a table above its initial size has at least a quarter of its slots in use at every
      moment. */
  method PerformOnNew(initialSize: nat, ops: seq<HM.Op>)
    returns (mp: Map, replies: seq<HM.Reply>, ghost moments: seq<Moment>)
    requires initialSize >= 1
    ensures mp.Valid() && mp.initialSize == initialSize
    ensures |replies| == |ops| && |moments| == |ops| + 1 && AllFollow(moments, ops, replies, initialSize)
    ensures moments[0] == Moment(map[], initialSize) && moments[|ops|] == Moment(mp.contents, mp.tableSize)
    ensures forall i :: 0 <= i < |ops| - 1 ==> Steady(moments[i], moments[i + 1], moments[i + 2])
    ensures (forall k :: 0 <= k < |ops| ==> HM.ResizesSucceed(ops[k])) ==>
              forall i :: 0 <= i <= |ops| ==> WithinLimits(moments[i], initialSize)
  {
    hide *;
    mp := new Map(initialSize);
    replies, moments := Perform(mp, ops);
    RunFromNew(moments, ops, replies, initialSize);
  }
}
