/** The five-most and five-least selection of src/m65tool/m65tool.c, for any number of places. Both
    lists start as zeros, and zero marks an unused place. */
module TopCounts {
  import opened Sequences

  /** `a` ranks strictly before `b`: larger first in the list of most frequent counts, smaller first in
      the list of least frequent ones; zero ranks last in both. */
  predicate Before(most: bool, a: nat, b: nat) {
    if most then a > b else a != 0 && (b == 0 || a < b)
  }

  /** The test under which the source swaps the carried count into a place. */
  predicate Takes(most: bool, place: nat, count: nat) {
    if most then place < count else place > count || place == 0
  }

  /** Strictly ranked counts, padded with zeros at the end. */
  predicate Ranked(most: bool, list: seq<nat>) {
    forall i, j :: 0 <= i < j < |list| ==> Before(most, list[i], list[j]) || list[j] == 0
  }

  /** The first |list| of the distinct counts `seen`, in rank order, padded with zeros. */
  predicate IsSelection(most: bool, list: seq<nat>, seen: set<nat>) {
    && Ranked(most, list)
    && (forall x :: x in list && x != 0 ==> x in seen)
    && (forall x :: x in seen ==> x in list || forall i :: 0 <= i < |list| ==> Before(most, list[i], x))
  }

  /** Spelled out: a selection of the most frequent counts decreases, and a count that is not in it is below all
      of it; one of the least frequent counts increases, and a count that is not in it is above all of it. Zeros
      come last in both, and only when all counts are in it. */
  lemma SelectionMeans(most: bool, list: seq<nat>, seen: set<nat>)
    requires 0 !in seen
    ensures IsSelection(most, list, seen) <==>
            && (forall i, j :: 0 <= i < j < |list| && list[j] != 0 ==>
                                 if most then list[i] > list[j] else 0 < list[i] < list[j])
            && (forall i :: 0 <= i < |list| && list[i] != 0 ==> list[i] in seen)
            && (forall x, i :: x in seen && x !in list && 0 <= i < |list| ==>
                                 if most then list[i] > x else 0 < list[i] < x)
  {
    if IsSelection(most, list, seen) {
      forall i | 0 <= i < |list| && list[i] != 0
        ensures list[i] in seen
      {
        assert list[i] in list;
      }
    }
  }

  /** What the inner loop does to a list. */
  function Insert(most: bool, list: seq<nat>, count: nat): (r: seq<nat>)
    ensures |r| == |list|
    decreases |list|
  {
    if |list| == 0 || list[0] == count then list
    else if Takes(most, list[0], count) then [count] + Insert(most, list[1..], list[0])
    else [list[0]] + Insert(most, list[1..], count)
  }

  predicate AllZero(list: seq<nat>) {
    forall i :: 0 <= i < |list| ==> list[i] == 0
  }

  lemma {:induction false} InsertRanks(most: bool, list: seq<nat>, count: nat)
    requires Ranked(most, list) && (count != 0 || AllZero(list))
    ensures Ranked(most, Insert(most, list, count))
    ensures forall x :: x in Insert(most, list, count) ==> x in list || x == count
    ensures forall x :: (x in list || x == count) && x != 0 ==>
                          || x in Insert(most, list, count)
                          || forall y :: y in Insert(most, list, count) ==> Before(most, y, x)
    decreases |list|
  {
    if |list| > 0 && list[0] != count {
      var first, rest := list[0], list[1..];
      assert forall j :: 0 <= j < |rest| ==> rest[j] == list[j + 1];
      var swap := Takes(most, first, count);
      var head, carry := if swap then count else first, if swap then first else count;
      InsertRanks(most, rest, carry);
      var tail := Insert(most, rest, carry);
      assert Insert(most, list, count) == [head] + tail;
      assert forall y :: y in tail ==> y == 0 || Before(most, head, y);
      HeadThenRanked(most, head, tail);
    }
  }

  lemma HeadThenRanked(most: bool, head: nat, tail: seq<nat>)
    requires Ranked(most, tail) && forall y :: y in tail ==> y == 0 || Before(most, head, y)
    ensures Ranked(most, [head] + tail)
  {
    var r := [head] + tail;
    forall i, j | 0 <= i < j < |r|
      ensures Before(most, r[i], r[j]) || r[j] == 0
    {
      assert r[j] == tail[j - 1] && r[j] in tail;
      assert i > 0 ==> r[i] == tail[i - 1];
    }
  }

  /** Inserting a count keeps the list the selection of the counts seen. */
  lemma InsertSelects(most: bool, list: seq<nat>, seen: set<nat>, count: nat)
    requires IsSelection(most, list, seen) && count > 0 && 0 !in seen
    ensures IsSelection(most, Insert(most, list, count), seen + {count})
  {
    var r := Insert(most, list, count);
    InsertRanks(most, list, count);
    forall x | x in seen + {count}
      ensures x in r || forall i :: 0 <= i < |r| ==> Before(most, r[i], x)
    {
      if x !in list && x != count {
        InsertImproves(most, list, count, x);
      }
      assert forall i :: 0 <= i < |r| ==> r[i] in r;
    }
  }

  /** Whatever ranks after the whole list ranks after, or is in, the list with a count inserted. */
  lemma {:induction false} InsertImproves(most: bool, list: seq<nat>, count: nat, x: nat)
    requires Ranked(most, list) && (count != 0 || AllZero(list)) && x != 0
    requires forall i :: 0 <= i < |list| ==> Before(most, list[i], x)
    ensures forall y :: y in Insert(most, list, count) ==> Before(most, y, x)
    decreases |list|
  {
    if |list| > 0 && list[0] != count {
      var swap := Takes(most, list[0], count);
      assert forall j :: 0 <= j < |list| - 1 ==> list[1..][j] == list[j + 1];
      InsertImproves(most, list[1..], if swap then list[0] else count, x);
    }
  }

  /** A selection is determined by the counts seen: it is the only ranked list of its length with those
      properties. */
  lemma SelectionIsUnique(most: bool, a: seq<nat>, b: seq<nat>, seen: set<nat>)
    requires |a| == |b| && IsSelection(most, a, seen) && IsSelection(most, b, seen) && 0 !in seen
    ensures a == b
  {
    var i := 0;
    while i < |a|
      invariant 0 <= i <= |a| && a[..i] == b[..i]
    {
      if Before(most, a[i], b[i]) {
        SelectionsMeet(most, a, b, seen, i);
      } else if a[i] != b[i] {
        SelectionsMeet(most, b, a, seen, i);
      }
      assert a[i] == b[i];
      i := i + 1;
    }
  }

  lemma SelectionsMeet(most: bool, a: seq<nat>, b: seq<nat>, seen: set<nat>, i: nat)
    requires |a| == |b| && IsSelection(most, a, seen) && IsSelection(most, b, seen) && 0 !in seen
    requires i < |a| && a[..i] == b[..i]
    ensures !Before(most, a[i], b[i])
  {
    assert forall j :: 0 <= j < i ==> a[j] == a[..i][j] == b[..i][j] == b[j];
    assert a[i] in a && b[i] in b;
    if Before(most, a[i], b[i]) {
      assert false;
    }
  }

  // ---------------------------------------------------------------- the selection loop

  /** What the inner loop still has to do from place `p` on. */
  function Carried(most: bool, list: seq<nat>, p: nat, count: nat): seq<nat>
    requires p <= |list|
  {
    list[..p] + Insert(most, list[p..], count)
  }

  lemma InsertStep(most: bool, list: seq<nat>, count: nat)
    requires |list| > 0
    ensures Insert(most, list, count) ==
            if list[0] == count then list
            else if Takes(most, list[0], count) then [count] + Insert(most, list[1..], list[0])
            else [list[0]] + Insert(most, list[1..], count)
  {
  }

  lemma Slices(list: seq<nat>, p: nat)
    requires p < |list|
    ensures list[p..][0] == list[p] && list[p..][1..] == list[p + 1..]
    ensures list[..p] + list[p..] == list && list[..p + 1] == list[..p] + [list[p]]
  {
  }

  lemma SlicesOfUpdate(list: seq<nat>, p: nat, x: nat)
    requires p < |list|
    ensures list[p := x][..p + 1] == list[..p] + [x] && list[p := x][p + 1..] == list[p + 1..]
  {
  }

  lemma Regroup(a: seq<nat>, x: nat, b: seq<nat>)
    ensures a + ([x] + b) == (a + [x]) + b
  {
  }

  lemma CarrySwaps(most: bool, list: seq<nat>, p: nat, count: nat)
    requires p < |list| && list[p] != count && Takes(most, list[p], count)
    ensures Carried(most, list, p, count) == Carried(most, list[p := count], p + 1, list[p])
  {
    Slices(list, p);
    SlicesOfUpdate(list, p, count);
    InsertStep(most, list[p..], count);
    hide Insert, Takes;
    var tail := Insert(most, list[p + 1..], list[p]);
    Regroup(list[..p], count, tail);
  }

  lemma CarryPasses(most: bool, list: seq<nat>, p: nat, count: nat)
    requires p < |list| && list[p] != count && !Takes(most, list[p], count)
    ensures Carried(most, list, p, count) == Carried(most, list, p + 1, count)
  {
    Slices(list, p);
    InsertStep(most, list[p..], count);
    hide Insert, Takes;
    var tail := Insert(most, list[p + 1..], count);
    Regroup(list[..p], list[p], tail);
  }

  lemma CarryStops(most: bool, list: seq<nat>, p: nat)
    requires p < |list|
    ensures Carried(most, list, p, list[p]) == list
  {
    Slices(list, p);
    InsertStep(most, list[p..], list[p]);
  }

  lemma CarryEnds(most: bool, list: seq<nat>, count: nat)
    ensures Carried(most, list, 0, count) == Insert(most, list, count)
    ensures Carried(most, list, |list|, count) == list
  {
    assert list[0..] == list && list[..|list|] == list && list[..0] == [];
  }

  /** The inner loop: carry a count along the places, swapping it in where the test says so. */
  method InsertCount(most: bool, places: array<nat>, c: nat)
    modifies places
    ensures places[..] == Insert(most, old(places[..]), c)
  {
    hide Insert, Carried;
    var count := c;
    var p := 0;
    CarryEnds(most, places[..], c);
    while p < places.Length
      invariant 0 <= p <= places.Length
      invariant Carried(most, places[..], p, count) == Insert(most, old(places[..]), c)
    {
      ghost var list := places[..];
      if places[p] == count {
        CarryStops(most, list, p);
        return;
      }
      if Takes(most, places[p], count) {
        CarrySwaps(most, list, p, count);
        var t := places[p];
        places[p] := count;
        assert places[..] == list[p := count];
        count := t;
      } else {
        CarryPasses(most, list, p, count);
      }
      p := p + 1;
    }
    CarryEnds(most, places[..], count);
  }

  function CountsSeen(counts: seq<nat>): set<nat> {
    set c | c in counts
  }

  /** After the scan, `most` holds the largest distinct counts and `least` the smallest, each in order
      and padded with zeros, for any number of places. */
  method SelectFrequencies(counts: seq<nat>, places: nat) returns (mostFreq: array<nat>, leastFreq: array<nat>)
    requires 0 !in counts
    ensures fresh(mostFreq) && fresh(leastFreq) && mostFreq.Length == leastFreq.Length == places
    ensures IsSelection(true, mostFreq[..], CountsSeen(counts))
    ensures IsSelection(false, leastFreq[..], CountsSeen(counts))
    ensures forall c, p :: c in counts && c !in mostFreq[..] && 0 <= p < places ==> mostFreq[p] > c
    ensures forall c, p :: c in counts && c !in leastFreq[..] && 0 <= p < places ==> 0 < leastFreq[p] < c
  {
    mostFreq := new nat[places](_ => 0);
    leastFreq := new nat[places](_ => 0);
    var i := 0;
    while i < |counts|
      invariant 0 <= i <= |counts|
      invariant IsSelection(true, mostFreq[..], CountsSeen(counts[..i]))
      invariant IsSelection(false, leastFreq[..], CountsSeen(counts[..i]))
    {
      ghost var seen := CountsSeen(counts[..i]);
      assert CountsSeen(counts[..i + 1]) == seen + {counts[i]};
      assert counts[i] in counts && forall c :: c in counts[..i] ==> c in counts;
      InsertSelects(true, mostFreq[..], seen, counts[i]);
      InsertSelects(false, leastFreq[..], seen, counts[i]);
      InsertCount(true, mostFreq, counts[i]);
      InsertCount(false, leastFreq, counts[i]);
      i := i + 1;
    }
    assert counts[..i] == counts;
    SelectionMeans(true, mostFreq[..], CountsSeen(counts));
    SelectionMeans(false, leastFreq[..], CountsSeen(counts));
    assert forall c :: c in counts ==> c in CountsSeen(counts);
  }

  // ---------------------------------------------------------------- matching words to places

  function Sum(a: seq<nat>): nat {
    if |a| == 0 then 0 else Sum(a[..|a| - 1]) + a[|a| - 1]
  }

  /** How many of the counts equal the count in some place, over all places. */
  function TotalMatches(list: seq<nat>, counts: seq<nat>): nat {
    if |list| == 0 then 0 else TotalMatches(list[..|list| - 1], counts) + multiset(counts)[list[|list| - 1]]
  }

  lemma {:induction false} SumOfMatches(matches: seq<nat>, list: seq<nat>, counts: seq<nat>)
    requires |matches| == |list| && forall p :: 0 <= p < |list| ==> matches[p] == multiset(counts)[list[p]]
    ensures Sum(matches) == TotalMatches(list, counts)
  {
    if |list| > 0 {
      SumOfMatches(matches[..|list| - 1], list[..|list| - 1], counts);
    }
  }

  lemma {:induction false} TotalMatchesSnoc(most: bool, list: seq<nat>, counts: seq<nat>, c: nat)
    requires Ranked(most, list) && c > 0
    ensures TotalMatches(list, counts + [c]) == TotalMatches(list, counts) + if c in list then 1 else 0
  {
    assert multiset(counts + [c]) == multiset(counts) + multiset{c};
    if |list| > 0 {
      var n := |list| - 1;
      TotalMatchesSnoc(most, list[..n], counts, c);
      assert list == list[..n] + [list[n]];
      assert c in list <==> c == list[n] || c in list[..n];
      assert forall i :: 0 <= i < n ==> list[..n][i] == list[i];
    }
  }

  lemma {:induction false} MatchesAllIfListed(most: bool, list: seq<nat>, counts: seq<nat>)
    requires Ranked(most, list) && 0 !in counts
    ensures TotalMatches(list, counts) <= |counts|
    ensures TotalMatches(list, counts) == |counts| <==> forall c :: c in counts ==> c in list
  {
    if |counts| == 0 {
      NoMatches(list);
    } else {
      var last := |counts| - 1;
      var front := counts[..last];
      assert counts == front + [counts[last]];
      assert forall c :: c in counts <==> c in front || c == counts[last];
      MatchesAllIfListed(most, list, front);
      TotalMatchesSnoc(most, list, front, counts[last]);
    }
  }

  lemma {:induction false} NoMatches(list: seq<nat>)
    ensures TotalMatches(list, []) == 0
  {
    if |list| > 0 {
      NoMatches(list[..|list| - 1]);
    }
  }

  lemma ListedIfFew(most: bool, list: seq<nat>, seen: set<nat>)
    requires IsSelection(most, list, seen) && 0 !in seen
    ensures |seen| <= |list| <==> forall x :: x in seen ==> x in list
  {
    var listed := CountsSeen(list);
    ListSize(list);
    if forall x :: x in seen ==> x in list {
      assert seen <= listed;
      SubsetSize(seen, listed);
    } else {
      var x :| x in seen && x !in list;
      assert forall i :: 0 <= i < |list| ==> list[i] != 0 && list[i] in list;
      assert forall i, j :: 0 <= i < j < |list| ==> list[i] != list[j];
      DistinctSize(list);
      assert listed + {x} <= seen;
      SubsetSize(listed + {x}, seen);
    }
  }

  lemma {:induction false} ListSize(list: seq<nat>)
    ensures |CountsSeen(list)| <= |list|
  {
    if |list| > 0 {
      var rest := list[..|list| - 1];
      ListSize(rest);
      assert list == rest + [list[|list| - 1]];
      assert CountsSeen(list) == CountsSeen(rest) + {list[|list| - 1]};
    }
  }

  lemma {:induction false} DistinctSize(list: seq<nat>)
    requires forall i, j :: 0 <= i < j < |list| ==> list[i] != list[j]
    ensures |CountsSeen(list)| == |list|
  {
    if |list| > 0 {
      var rest := list[..|list| - 1];
      DistinctSize(rest);
      assert list == rest + [list[|list| - 1]];
      assert CountsSeen(list) == CountsSeen(rest) + {list[|list| - 1]};
      assert list[|list| - 1] !in rest;
    }
  }

  /** The match totals of all places sum to the number of counts if and only if there are at most as
      many distinct counts as places. */
  lemma MatchTotals(most: bool, list: seq<nat>, counts: seq<nat>)
    requires 0 !in counts && IsSelection(most, list, CountsSeen(counts))
    ensures TotalMatches(list, counts) == |counts| <==> |CountsSeen(counts)| <= |list|
  {
    MatchesAllIfListed(most, list, counts);
    ListedIfFew(most, list, CountsSeen(counts));
    assert forall c :: c in counts <==> c in CountsSeen(counts);
  }

  /** The counting loop over the iterated values: how many match each place. */
  method CountMatches(counts: seq<nat>, places: array<nat>) returns (matches: array<nat>)
    ensures fresh(matches) && matches.Length == places.Length
    ensures forall p :: 0 <= p < places.Length ==> matches[p] == multiset(counts)[places[p]]
  {
    matches := new nat[places.Length](_ => 0);
    var i := 0;
    while i < |counts|
      invariant 0 <= i <= |counts|
      invariant forall p :: 0 <= p < places.Length ==> matches[p] == multiset(counts[..i])[places[p]]
    {
      var count := counts[i];
      assert counts[..i + 1] == counts[..i] + [count];
      var p := 0;
      while p < places.Length
        invariant 0 <= p <= places.Length
        invariant forall q :: 0 <= q < p ==> matches[q] == multiset(counts[..i + 1])[places[q]]
        invariant forall q :: p <= q < places.Length ==> matches[q] == multiset(counts[..i])[places[q]]
      {
        if count == places[p] {
          matches[p] := matches[p] + 1;
        }
        p := p + 1;
      }
      i := i + 1;
    }
    assert counts[..i] == counts;
  }
}
