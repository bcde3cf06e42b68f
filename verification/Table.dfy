/** The slots of the map's table: homes, probe runs, lookups, and how many slots are occupied.
    A slot whose hash is zero is empty (src/datastruct/map.c). */
module Table {
  type Hash = h: int | 0 <= h < 0x1_0000_0000

  /** The address and size of a memory handle; address zero is the null pointer. */
  datatype Handle = Handle(data: nat, size: nat)

  const NULL_HANDLE := Handle(0, 0)

  datatype Entry = Entry(hash: Hash, value: Handle)

  const EMPTY := Entry(0, NULL_HANDLE)

  type Slots = seq<Entry>

  function Home(h: Hash, n: nat): (p: nat)
    requires n > 0
    ensures p < n
  {
    h % n
  }

  /** Slot `p` lies in the cyclic interval that starts at `home` and stops just before `q`. */
  predicate InRun(home: int, p: int, q: int) {
    if home <= q then home <= p < q else home <= p || p < q
  }

  predicate Occupied(s: Slots, j: int) {
    0 <= j < |s| && s[j].hash != 0
  }

  predicate HasEmpty(s: Slots) {
    exists e :: 0 <= e < |s| && s[e].hash == 0
  }

  /** What a probe for `h` returns: the first slot, cyclically from home, that holds `h` or is empty. */
  predicate ProbeEnds(s: Slots, h: Hash, pos: int) {
    && 0 <= pos < |s|
    && (s[pos].hash == h || s[pos].hash == 0)
    && forall p :: 0 <= p < |s| && InRun(Home(h, |s|), p, pos) ==> s[p].hash != h && s[p].hash != 0
  }

  lemma ProbeEndUnique(s: Slots, h: Hash, p: int, q: int)
    requires ProbeEnds(s, h, p) && ProbeEnds(s, h, q)
    ensures p == q
  {
    var home := Home(h, |s|);
    assert p == q || InRun(home, p, q) || InRun(home, q, p);
  }

  /** The number of steps from `a` forward to `b` in a table of `n` slots. */
  function Distance(a: nat, b: nat, n: nat): (d: nat)
    requires a < n && b < n
    ensures d < n
  {
    if a <= b then b - a else b + n - a
  }

  function Next(p: nat, n: nat): (q: nat)
    requires p < n
    ensures q < n
  {
    if p + 1 >= n then 0 else p + 1
  }

  /** A probe that has not stopped before `pos` stops somewhere, because slot `e` is empty. */
  lemma ProbeReaches(s: Slots, h: Hash, pos: nat, e: nat) returns (end: nat)
    requires pos < |s| && e < |s| && s[e].hash == 0
    requires forall p :: 0 <= p < |s| && InRun(Home(h, |s|), p, pos) ==> s[p].hash != h && s[p].hash != 0
    ensures ProbeEnds(s, h, end)
    decreases Distance(pos, e, |s|)
  {
    if s[pos].hash == h || s[pos].hash == 0 {
      end := pos;
    } else {
      var home, next := Home(h, |s|), Next(pos, |s|);
      assert next == home ==> e == pos || InRun(home, e, pos);
      assert forall p :: 0 <= p < |s| && InRun(home, p, next) ==> InRun(home, p, pos) || p == pos;
      end := ProbeReaches(s, h, next, e);
    }
  }

  /** The slots a probe looks at: from slot `h % n` up, one at a time, around the end of the table, past slots
      that hold other hashes. */
  lemma ProbePath(s: Slots, h: Hash, pos: nat) returns (path: seq<nat>)
    requires ProbeEnds(s, h, pos)
    ensures |path| > 0 && path[0] == h % |s| && path[|path| - 1] == pos && s[pos].hash in {h, 0}
    ensures forall d :: 0 <= d < |path| - 1 ==>
                          && path[d] < |s| && s[path[d]].hash !in {h, 0}
                          && path[d + 1] == if path[d] + 1 < |s| then path[d] + 1 else 0
  {
    var n, home := |s|, Home(h, |s|);
    path := [home];
    while path[|path| - 1] != pos
      invariant |path| > 0 && path[0] == home
      invariant path[|path| - 1] < n && (path[|path| - 1] == pos || InRun(home, path[|path| - 1], pos))
      invariant forall d :: 0 <= d < |path| - 1 ==>
                              && path[d] < n && s[path[d]].hash !in {h, 0}
                              && path[d + 1] == if path[d] + 1 < n then path[d] + 1 else 0
      decreases Distance(path[|path| - 1], pos, n)
    {
      path := path + [Next(path[|path| - 1], n)];
    }
  }

  ghost function Find(s: Slots, h: Hash): (pos: nat)
    requires HasEmpty(s)
    ensures ProbeEnds(s, h, pos)
  {
    assert exists pos: nat :: ProbeEnds(s, h, pos) by {
      var e :| 0 <= e < |s| && s[e].hash == 0;
      var pos := ProbeReaches(s, h, Home(h, |s|), e);
    }
    var pos: nat :| ProbeEnds(s, h, pos);
    pos
  }

  /** What `do_get` answers. */
  ghost function Lookup(s: Slots, h: Hash): Handle
    requires HasEmpty(s)
  {
    var e := s[Find(s, h)];
    if e.hash == 0 then NULL_HANDLE else e.value
  }

  lemma LookupAt(s: Slots, h: Hash, pos: int)
    requires HasEmpty(s) && ProbeEnds(s, h, pos)
    ensures Find(s, h) == pos
    ensures Lookup(s, h) == if s[pos].hash == 0 then NULL_HANDLE else s[pos].value
  {
    ProbeEndUnique(s, h, Find(s, h), pos);
  }

  // ---------------------------------------------------------------- well-formed tables

  /** No hole between the home of the entry in slot `j` and slot `j` itself. */
  predicate Reachable(s: Slots, j: int)
    requires 0 <= j < |s|
  {
    forall p :: 0 <= p < |s| && InRun(Home(s[j].hash, |s|), p, j) ==> s[p].hash != 0
  }

  predicate Unbroken(s: Slots) {
    forall j :: 0 <= j < |s| && s[j].hash != 0 ==> Reachable(s, j)
  }

  predicate Distinct(s: Slots) {
    forall i, j :: 0 <= i < |s| && 0 <= j < |s| && s[i].hash != 0 && s[i].hash == s[j].hash ==> i == j
  }

  predicate WellFormed(s: Slots) {
    HasEmpty(s) && Unbroken(s) && Distinct(s)
  }

  predicate Stored(s: Slots, h: Hash) {
    exists j :: 0 <= j < |s| && s[j].hash == h
  }

  lemma StoredIsFound(s: Slots, j: int)
    requires HasEmpty(s) && Distinct(s) && Occupied(s, j) && Reachable(s, j)
    ensures ProbeEnds(s, s[j].hash, j) && Find(s, s[j].hash) == j
    ensures Lookup(s, s[j].hash) == s[j].value
  {
    LookupAt(s, s[j].hash, j);
  }

  /** In a table with distinct hashes an entry is found exactly when its run has no hole. */
  lemma FoundIffReachable(s: Slots, j: int)
    requires HasEmpty(s) && Distinct(s) && Occupied(s, j)
    ensures Find(s, s[j].hash) == j <==> Reachable(s, j)
    ensures !Reachable(s, j) ==> Lookup(s, s[j].hash) == NULL_HANDLE
  {
    var pos := Find(s, s[j].hash);
    if Reachable(s, j) {
      StoredIsFound(s, j);
    } else if s[pos].hash != 0 {
      assert false;
    }
  }

  // ---------------------------------------------------------------- counting occupied slots

  function Occupancy(s: Slots): (c: nat)
    ensures c <= |s|
  {
    if |s| == 0 then 0
    else Occupancy(s[..|s| - 1]) + (if s[|s| - 1].hash != 0 then 1 else 0)
  }

  function Weight(e: Entry): nat {
    if e.hash != 0 then 1 else 0
  }

  lemma {:induction false} OccupancyUpdate(s: Slots, i: nat, e: Entry)
    requires i < |s|
    ensures Occupancy(s[i := e]) == Occupancy(s) - Weight(s[i]) + Weight(e)
  {
    var n := |s| - 1;
    if i == n {
      assert s[i := e][..n] == s[..n];
    } else {
      assert s[i := e][..n] == s[..n][i := e];
      OccupancyUpdate(s[..n], i, e);
    }
  }

  lemma {:induction false} RoomMeansEmpty(s: Slots)
    requires Occupancy(s) < |s|
    ensures HasEmpty(s)
  {
    var n := |s| - 1;
    if s[n].hash != 0 {
      RoomMeansEmpty(s[..n]);
      var e :| 0 <= e < n && s[..n][e].hash == 0;
      assert s[e].hash == 0;
    }
  }

  function Blank(n: nat): (s: Slots)
    ensures |s| == n && forall j :: 0 <= j < n ==> s[j] == EMPTY
  {
    seq(n, i => EMPTY)
  }

  lemma {:induction false} BlankIsVacant(s: Slots)
    requires forall j :: 0 <= j < |s| ==> s[j].hash == 0
    ensures Occupancy(s) == 0
  {
    if |s| > 0 {
      BlankIsVacant(s[..|s| - 1]);
    }
  }

  // ---------------------------------------------------------------- tables as partial maps

  type Contents = map<Hash, Handle>

  function ValueIn(m: Contents, h: Hash): Handle {
    if h in m then m[h] else NULL_HANDLE
  }

  /** Every lookup answers what the partial map holds, or the invalid handle. */
  ghost predicate Agrees(s: Slots, m: Contents) {
    HasEmpty(s) && forall h: Hash :: Lookup(s, h) == ValueIn(m, h)
  }

  /** The entries of the table are exactly those of `m`, each once, wherever they sit, and empty slots
      are blank. A map never stores an invalid handle. */
  ghost predicate Lists(s: Slots, m: Contents) {
    && Distinct(s)
    && (forall j :: 0 <= j < |s| && s[j].hash == 0 ==> s[j] == EMPTY)
    && (forall j :: 0 <= j < |s| && s[j].hash != 0 ==> s[j].hash in m && m[s[j].hash] == s[j].value)
    && (forall h :: h in m ==> h != 0 && m[h].data != 0 && Stored(s, h))
  }

  /** A well-formed table whose entries are exactly those of `m`. */
  ghost predicate Represents(s: Slots, m: Contents) {
    WellFormed(s) && Lists(s, m)
  }

  lemma AbsentLookup(s: Slots, h: Hash)
    requires HasEmpty(s) && (h == 0 || !Stored(s, h))
    ensures s[Find(s, h)].hash == 0 && Lookup(s, h) == NULL_HANDLE
  {
    assert s[Find(s, h)].hash == h ==> Stored(s, h);
  }

  lemma RepresentsLookup(s: Slots, m: Contents, h: Hash)
    requires Represents(s, m)
    ensures Lookup(s, h) == ValueIn(m, h)
    ensures s[Find(s, h)].hash != 0 <==> h in m
  {
    if h in m {
      var j :| 0 <= j < |s| && s[j].hash == h;
      StoredIsFound(s, j);
    } else {
      AbsentLookup(s, h);
    }
  }

  lemma RepresentsAgrees(s: Slots, m: Contents)
    requires Represents(s, m)
    ensures Agrees(s, m)
  {
    forall h: Hash
      ensures Lookup(s, h) == ValueIn(m, h)
    {
      RepresentsLookup(s, m, h);
    }
  }

  /** Writing a nonzero hash where its probe ends updates the represented map at that hash alone. */
  lemma PutRepresents(s: Slots, m: Contents, h: Hash, v: Handle, pos: int)
    requires Represents(s, m) && ProbeEnds(s, h, pos) && h != 0 && v.data != 0
    requires HasEmpty(s[pos := Entry(h, v)])
    ensures Represents(s[pos := Entry(h, v)], m[h := v])
  {
    PutWellFormed(s, h, v, pos);
    PutLists(s, m, h, v, pos);
  }

  lemma PutLists(s: Slots, m: Contents, h: Hash, v: Handle, pos: int)
    requires Lists(s, m) && ProbeEnds(s, h, pos) && h != 0 && v.data != 0
    requires Distinct(s[pos := Entry(h, v)])
    ensures Lists(s[pos := Entry(h, v)], m[h := v])
  {
    var t := s[pos := Entry(h, v)];
    assert t[pos].hash == h;
    forall k | k in m && k != h
      ensures Stored(t, k)
    {
      var j :| 0 <= j < |s| && s[j].hash == k;
      assert t[j].hash == k;
    }
    forall j | 0 <= j < |t| && t[j].hash != 0
      ensures t[j].hash in m[h := v] && m[h := v][t[j].hash] == t[j].value
    {
      assert j != pos ==> t[j].hash != t[pos].hash;
    }
  }

  lemma PutWellFormed(s: Slots, h: Hash, v: Handle, pos: int)
    requires WellFormed(s) && ProbeEnds(s, h, pos) && h != 0
    requires HasEmpty(s[pos := Entry(h, v)])
    ensures WellFormed(s[pos := Entry(h, v)])
  {
    var t := s[pos := Entry(h, v)];
    assert Distinct(t) by {
      forall i | 0 <= i < |s| && i != pos
        ensures s[i].hash != h
      {
        if s[i].hash == h {
          StoredIsFound(s, i);
          ProbeEndUnique(s, h, i, pos);
        }
      }
    }
    forall j | 0 <= j < |t| && t[j].hash != 0
      ensures Reachable(t, j)
    {
      if j != pos {
        assert Reachable(s, j);
      }
    }
  }

  /** The partial map of a slot list. */
  function MapOf(s: Slots): Contents {
    if |s| == 0 then map[]
    else
      var m := MapOf(s[..|s| - 1]);
      var e := s[|s| - 1];
      if e.hash == 0 then m else m[e.hash := e.value]
  }

  lemma {:induction false} MapOfEntries(s: Slots)
    requires Distinct(s)
    ensures forall j :: 0 <= j < |s| && s[j].hash != 0 ==> s[j].hash in MapOf(s) && MapOf(s)[s[j].hash] == s[j].value
    ensures forall k :: k in MapOf(s) ==> k != 0 && Stored(s, k)
  {
    if |s| > 0 {
      var last := |s| - 1;
      var s' := s[..last];
      assert forall j :: 0 <= j < last ==> s'[j] == s[j];
      MapOfEntries(s');
      forall k | k in MapOf(s)
        ensures k != 0 && Stored(s, k)
      {
        if k in MapOf(s') {
          var j :| 0 <= j < |s'| && s'[j].hash == k;
          assert s[j].hash == k;
        } else {
          assert s[last].hash == k;
        }
      }
    }
  }

  lemma MapOfListed(s: Slots, m: Contents)
    requires Lists(s, m)
    ensures MapOf(s) == m
  {
    MapOfEntries(s);
    forall k | k in m
      ensures k in MapOf(s) && MapOf(s)[k] == m[k]
    {
      var j :| 0 <= j < |s| && s[j].hash == k;
    }
    forall k | k in MapOf(s)
      ensures k in m
    {
      var j :| 0 <= j < |s| && s[j].hash == k;
    }
  }

  /** A well-formed table of valid handles, blank elsewhere, stands for the map of its slots. */
  lemma MapOfRepresents(s: Slots)
    requires WellFormed(s)
    requires forall j :: 0 <= j < |s| ==> if s[j].hash == 0 then s[j] == EMPTY else s[j].value.data != 0
    ensures Represents(s, MapOf(s))
  {
    MapOfEntries(s);
    forall k | k in MapOf(s)
      ensures MapOf(s)[k].data != 0
    {
      var j :| 0 <= j < |s| && s[j].hash == k;
    }
  }

  // ---------------------------------------------------------------- every entry at home

  /** Every entry sits in its home slot. */
  predicate AllAtHome(s: Slots) {
    |s| > 0 && forall j :: 0 <= j < |s| && s[j].hash != 0 ==> Home(s[j].hash, |s|) == j
  }

  lemma AtHomeWellFormed(s: Slots)
    requires AllAtHome(s) && HasEmpty(s)
    ensures WellFormed(s)
  {
    forall j | 0 <= j < |s| && s[j].hash != 0
      ensures Reachable(s, j)
    {
      assert Home(s[j].hash, |s|) == j;
    }
  }

  /** `find_entry_pos`: -1 stands for the failed assertion at its end. */
  method FindEntryPos(entries: array<Entry>, h: Hash) returns (pos: int)
    requires entries.Length > 0
    ensures pos >= 0 ==> ProbeEnds(entries[..], h, pos)
    ensures pos < 0 ==> !HasEmpty(entries[..]) && !Stored(entries[..], h)
  {
    var startPos := Home(h, entries.Length);
    pos := startPos;
    while true
      invariant 0 <= pos < entries.Length
      invariant forall p :: 0 <= p < entries.Length && InRun(startPos, p, pos) ==>
                              entries[p].hash != h && entries[p].hash != 0
      decreases entries.Length - Distance(startPos, pos, entries.Length)
    {
      if entries[pos].hash == h || entries[pos].hash == 0 {
        return;
      }
      pos := pos + 1;
      if pos >= entries.Length {
        pos := 0;
      }
      if pos == startPos {
        break;
      }
    }
    pos := -1;
  }
}
