/** The word counting of src/m65tool/m65tool.c over the map as it is written, where a growth loses entries: a
    word whose entry was lost is counted as a new word when it comes again. Memory for the map's growths is
    available; without it the program stops. */
module WrittenFreq {
  import opened Sequences
  import opened Strings
  import opened Table
  import opened WordFreq
  import HM = HashMap
  import Keys
  import MapIter
  import TopCounts

  /** The map, and the counters written so far, whether inside their block or not. */
  datatype Counting = Counting(st: HM.State, counts: seq<nat>)

  /** Every value in the table names a counter. */
  ghost predicate NamesCounters(s: Slots, counts: seq<nat>) {
    forall q :: 0 <= q < |s| ==> s[q].value.data <= |counts|
  }

  ghost predicate Sound(c: Counting, n: nat) {
    HM.Inv(c.st, n) && NamesCounters(c.st.slots, c.counts) && 0 !in c.counts
  }

  lemma FoundNamesCounter(c: Counting, n: nat, h: Hash)
    requires Sound(c, n)
    ensures HasEmpty(c.st.slots) && Lookup(c.st.slots, h).data <= |c.counts|
  {
    HM.InvHasEmpty(c.st, n);
  }

  /** One word: its counter is incremented when the map finds it; otherwise it gets a new counter, and the
      map is told. `words_seen` is the number of counters. */
  ghost function CountStep(c: Counting, n: nat, h: Hash): (after: Counting)
    requires Sound(c, n)
    ensures Sound(after, n)
  {
    FoundNamesCounter(c, n, h);
    var found := Lookup(c.st.slots, h).data;
    if found != 0 then c.(counts := c.counts[found - 1 := c.counts[found - 1] + 1])
    else
      var value := Handle(|c.counts| + 1, COUNTER_BYTES);
      SetIsSound(c, n, h, value);
      Counting(HM.SetStep(c.st, h, value, true).0, c.counts + [1])
  }

  lemma SetIsSound(c: Counting, n: nat, h: Hash, value: Handle)
    requires Sound(c, n) && value.data == |c.counts| + 1
    ensures HasEmpty(c.st.slots) && Sound(Counting(HM.SetStep(c.st, h, value, true).0, c.counts + [1]), n)
  {
    HM.StepKeepsInv(c.st, n, HM.Set(h, value, true));
    HM.RehashSlots(c.st.slots, 2 * |c.st.slots|);
    hide HM.Inv, HM.Rehash;
  }

  ghost function CountAll(c: Counting, n: nat, hs: seq<Hash>): (after: Counting)
    requires Sound(c, n)
    ensures Sound(after, n)
    decreases |hs|
  {
    if |hs| == 0 then c else CountAll(CountStep(c, n, hs[0]), n, hs[1..])
  }

  /** The counting of a new program, over a map of initial size `n`. */
  ghost function Start(n: nat): (c: Counting)
    requires n >= 1
    ensures Sound(c, n) && c == Counting(HM.Created(n), [])
  {
    Counting(HM.Created(n), [])
  }

  /** What `words_seen` is after these words. */
  ghost function WordsSeen(n: nat, hs: seq<Hash>): nat
    requires n >= 1
  {
    |CountAll(Start(n), n, hs).counts|
  }

  // ---------------------------------------------------------------- as long as the map does not grow

  lemma CountAllCons(c: Counting, n: nat, h: Hash, hs: seq<Hash>)
    requires Sound(c, n)
    ensures CountAll(c, n, [h] + hs) == CountAll(CountStep(c, n, h), n, hs)
  {
    assert ([h] + hs)[1..] == hs;
  }

  /** The state stands for the counting of `tokens`, with no growth so far. */
  ghost predicate Right(c: Counting, m: Contents, ids: seq<Hash>, tokens: seq<Hash>) {
    Represents(c.st.slots, m) && Tally(m, ids, c.counts, tokens) && c.st.count == |ids|
  }

  lemma HitIsRight(c: Counting, n: nat, m: Contents, ids: seq<Hash>, tokens: seq<Hash>, h: Hash)
    requires Sound(c, n) && Right(c, m, ids, tokens) && h in m
    ensures Right(CountStep(c, n, h), m, ids, tokens + [h]) && CountStep(c, n, h).st == c.st
  {
    RepresentsLookup(c.st.slots, m, h);
    TallyFinds(m, ids, c.counts, tokens, h);
    FoundNamesCounter(c, n, h);
    hide Represents, Tally, Sound, Lookup;
    TallySeen(m, ids, c.counts, tokens, m[h].data - 1);
  }

  lemma MissIsRight(c: Counting, n: nat, m: Contents, ids: seq<Hash>, tokens: seq<Hash>, h: Hash)
    requires Sound(c, n) && Right(c, m, ids, tokens) && h != 0 && h !in m && |ids| + 1 <= |c.st.slots| / 2
    ensures var value := Handle(|c.counts| + 1, COUNTER_BYTES);
            Right(CountStep(c, n, h), m[h := value], ids + [h], tokens + [h])
    ensures |CountStep(c, n, h).st.slots| == |c.st.slots| && |c.counts| == |ids|
  {
    var value := Handle(|c.counts| + 1, COUNTER_BYTES);
    RepresentsLookup(c.st.slots, m, h);
    TallyFinds(m, ids, c.counts, tokens, h);
    SetIsSound(c, n, h, value);
    HM.InvHasEmpty(CountStep(c, n, h).st, n);
    SetIsRight(c, m, h, value);
    hide Represents, Tally, Sound, Lookup, HM.SetStep;
    TallyNew(m, ids, c.counts, tokens, h, value);
  }

  lemma StepIsRight(c: Counting, n: nat, m: Contents, ids: seq<Hash>, tokens: seq<Hash>, h: Hash)
    returns (m': Contents, ids': seq<Hash>)
    requires Sound(c, n) && Right(c, m, ids, tokens) && h != 0
    requires h !in ids ==> |ids| + 1 <= |c.st.slots| / 2
    ensures Right(CountStep(c, n, h), m', ids', tokens + [h])
    ensures |CountStep(c, n, h).st.slots| == |c.st.slots|
  {
    InMapIff(m, ids, c.counts, tokens, h);
    hide Right, Sound, CountStep;
    if h in m {
      HitIsRight(c, n, m, ids, tokens, h);
      m', ids' := m, ids;
    } else {
      MissIsRight(c, n, m, ids, tokens, h);
      m', ids' := m[h := Handle(|c.counts| + 1, COUNTER_BYTES)], ids + [h];
    }
  }

  lemma InMapIff(m: Contents, ids: seq<Hash>, counts: seq<nat>, tokens: seq<Hash>, h: Hash)
    requires Tally(m, ids, counts, tokens)
    ensures h in m <==> h in ids
  {
  }

  lemma SetIsRight(c: Counting, m: Contents, h: Hash, value: Handle)
    requires Represents(c.st.slots, m) && h != 0 && h !in m && value.data != 0 && c.st.count + 1 <= |c.st.slots| / 2
    requires HasEmpty(HM.SetStep(c.st, h, value, true).0.slots)
    ensures var after := HM.SetStep(c.st, h, value, true).0;
            Represents(after.slots, m[h := value]) && after.count == c.st.count + 1 && |after.slots| == |c.st.slots|
  {
    RepresentsLookup(c.st.slots, m, h);
    PutRepresents(c.st.slots, m, h, value, Table.Find(c.st.slots, h));
  }

  /** While the distinct words are at most half the table, counting is right. */
  lemma {:induction false} CountAllIsRight(c: Counting, n: nat, m: Contents, ids: seq<Hash>, tokens: seq<Hash>,
                                           hs: seq<Hash>)
    returns (m': Contents, ids': seq<Hash>)
    requires Sound(c, n) && Right(c, m, ids, tokens) && 0 !in hs
    requires |Vocabulary(tokens + hs)| <= |c.st.slots| / 2
    ensures Right(CountAll(c, n, hs), m', ids', tokens + hs)
    ensures |CountAll(c, n, hs).st.slots| == |c.st.slots|
    decreases |hs|
  {
    if |hs| == 0 {
      assert tokens + hs == tokens;
      m', ids' := m, ids;
    } else {
      var h, rest := hs[0], hs[1..];
      assert hs == [h] + rest && h in hs && forall x :: x in rest ==> x in hs;
      assert tokens + hs == (tokens + [h]) + rest;
      NewNeedsRoom(ids, tokens, h, rest, m, c);
      hide Right, Sound, Vocabulary;
      var m1, ids1 := StepIsRight(c, n, m, ids, tokens, h);
      m', ids' := CountAllIsRight(CountStep(c, n, h), n, m1, ids1, tokens + [h], rest);
    }
  }

  lemma NewNeedsRoom(ids: seq<Hash>, tokens: seq<Hash>, h: Hash, rest: seq<Hash>, m: Contents, c: Counting)
    requires Right(c, m, ids, tokens)
    ensures h !in ids ==> |ids| + 1 <= |Vocabulary((tokens + [h]) + rest)|
  {
    if h !in ids {
      IdsSize(ids);
      assert Vocabulary(ids) + {h} <= Vocabulary((tokens + [h]) + rest);
      SubsetSize(Vocabulary(ids) + {h}, Vocabulary((tokens + [h]) + rest));
    }
  }

  /** So is `words_seen`: it is the number of distinct words. */
  lemma FewWordsAreCounted(n: nat, hs: seq<Hash>) returns (m: Contents, ids: seq<Hash>)
    requires n >= 1 && 0 !in hs && |Vocabulary(hs)| <= n / 2
    ensures Right(CountAll(Start(n), n, hs), m, ids, hs)
    ensures WordsSeen(n, hs) == |Vocabulary(hs)| && CountAll(Start(n), n, hs).st.count == WordsSeen(n, hs)
    ensures |CountAll(Start(n), n, hs).st.slots| == n
  {
    assert [] + hs == hs;
    TallyOfNothing([]);
    m, ids := CountAllIsRight(Start(n), n, map[], [], [], hs);
    TallyMeans(ids, hs, CountAll(Start(n), n, hs).counts, 0);
  }

  // ---------------------------------------------------------------- once it grows

  lemma {:induction false} CountAllConcat(c: Counting, n: nat, a: seq<Hash>, b: seq<Hash>)
    requires Sound(c, n)
    ensures CountAll(c, n, a + b) == CountAll(CountAll(c, n, a), n, b)
    decreases |a|
  {
    hide Sound, CountStep;
    if |a| == 0 {
      assert a + b == b;
    } else {
      assert a + b == [a[0]] + (a[1..] + b);
      CountAllCons(c, n, a[0], a[1..] + b);
      CountAllConcat(CountStep(c, n, a[0]), n, a[1..], b);
    }
  }

  lemma CountsMiss(c: Counting, n: nat, h: Hash)
    requires Sound(c, n)
    ensures HasEmpty(c.st.slots)
    ensures |CountStep(c, n, h).counts| == |c.counts| + if Lookup(c.st.slots, h).data == 0 then 1 else 0
  {
    FoundNamesCounter(c, n, h);
  }

  /** A word that makes the map grow, and comes again at once, is counted as two new words. */
  lemma GrowthCountsTwice(c: Counting, n: nat, m: Contents, h: Hash)
    requires Sound(c, n) && Represents(c.st.slots, m) && HM.Grows(c.st, h)
    ensures |CountAll(c, n, [h, h]).counts| == |c.counts| + 2
  {
    var c1 := CountStep(c, n, h);
    RepresentsLookup(c.st.slots, m, h);
    CountsMiss(c, n, h);
    CountsMiss(c1, n, h);
    HM.GrowthLosesTheKey(c.st, n, m, h, Handle(|c.counts| + 1, COUNTER_BYTES));
    hide Sound, Represents, Lookup;
    assert [h, h] == [h] + [h] && [h] == [h] + [];
    CountAllCons(c, n, h, [h]);
    CountAllCons(c1, n, h, []);
  }

  /** The table holds none but these hashes. */
  ghost predicate HoldsOnly(s: Slots, keys: set<Hash>) {
    forall q :: 0 <= q < |s| && s[q].hash != 0 ==> s[q].hash in keys
  }

  lemma StepHoldsOnly(c: Counting, n: nat, h: Hash, keys: set<Hash>)
    requires Sound(c, n) && HoldsOnly(c.st.slots, keys)
    ensures HoldsOnly(CountStep(c, n, h).st.slots, keys + {h})
  {
    FoundNamesCounter(c, n, h);
    HM.RehashSlots(c.st.slots, 2 * |c.st.slots|);
    hide HM.Inv, HM.Rehash, Lookup;
  }

  /** Words that have not come before are counted, whatever the map has lost. */
  lemma {:induction false} NewWordsAreCounted(c: Counting, n: nat, hs: seq<Hash>, keys: set<Hash>)
    requires Sound(c, n) && HoldsOnly(c.st.slots, keys)
    requires NoDuplicates(hs) && forall h :: h in hs ==> h !in keys
    ensures |CountAll(c, n, hs).counts| == |c.counts| + |hs|
    decreases |hs|
  {
    if |hs| > 0 {
      var h, rest := hs[0], hs[1..];
      assert h in hs && h !in rest && forall x :: x in rest ==> x in hs;
      CountsMiss(c, n, h);
      AbsentLookup(c.st.slots, h);
      StepHoldsOnly(c, n, h, keys);
      hide Sound, HoldsOnly, CountStep, Lookup;
      NewWordsAreCounted(CountStep(c, n, h), n, rest, keys + {h});
    }
  }

  lemma {:induction false} CountAllHoldsOnly(c: Counting, n: nat, hs: seq<Hash>, keys: set<Hash>)
    requires Sound(c, n) && HoldsOnly(c.st.slots, keys)
    ensures HoldsOnly(CountAll(c, n, hs).st.slots, keys + Vocabulary(hs))
    decreases |hs|
  {
    if |hs| == 0 {
      assert keys + Vocabulary(hs) == keys;
    } else {
      StepHoldsOnly(c, n, hs[0], keys);
      hide Sound, HoldsOnly, CountStep;
      CountAllHoldsOnly(CountStep(c, n, hs[0]), n, hs[1..], keys + {hs[0]});
      assert hs == [hs[0]] + hs[1..];
      assert (keys + {hs[0]}) + Vocabulary(hs[1..]) == keys + Vocabulary(hs);
    }
  }

  lemma DistinctParts(first: seq<Hash>, h: Hash, others: seq<Hash>)
    requires NoDuplicates(first + [h] + others) && 0 !in first + [h] + others
    ensures NoDuplicates(first) && 0 !in first && h != 0 && h !in first
    ensures NoDuplicates(others) && forall x :: x in others ==> x !in first && x != h
  {
    var all := first + [h] + others;
    assert forall i :: 0 <= i < |first| ==> all[i] == first[i];
    assert all[|first|] == h;
    assert forall i :: 0 <= i < |others| ==> all[|first| + 1 + i] == others[i];
    assert forall x :: x in first ==> x in all;
  }

  /** After words that fill a new map to half load, any other word makes it grow. */
  lemma NextGrows(n: nat, first: seq<Hash>, h: Hash) returns (m: Contents)
    requires n >= 1 && |first| == n / 2 && NoDuplicates(first) && 0 !in first && h !in first
    ensures var c := CountAll(Start(n), n, first);
            && HasEmpty(c.st.slots) && Represents(c.st.slots, m) && HM.Grows(c.st, h) && |c.counts| == |first|
  {
    var c := CountAll(Start(n), n, first);
    var ids;
    IdsSize(first);
    m, ids := FewWordsAreCounted(n, first);
    InMapIff(m, ids, c.counts, first, h);
    RepresentsLookup(c.st.slots, m, h);
  }

  /** Any words that fill a new map to half load, one more that comes twice in a row, and then any others: one
      more word is counted than there are. */
  lemma OneTooMany(n: nat, first: seq<Hash>, h: Hash, others: seq<Hash>)
    requires n >= 1 && |first| == n / 2
    requires NoDuplicates(first + [h] + others) && 0 !in first + [h] + others
    ensures WordsSeen(n, first + [h, h] + others) == |first + [h] + others| + 1
  {
    DistinctParts(first, h, others);
    var c := CountAll(Start(n), n, first);
    var m := NextGrows(n, first, h);
    var c2 := CountAll(c, n, [h, h]);
    var keys := Vocabulary(first) + Vocabulary([h, h]);
    CountAllHoldsOnly(Start(n), n, first, {});
    CountAllHoldsOnly(c, n, [h, h], {} + Vocabulary(first));
    assert ({} + Vocabulary(first)) + Vocabulary([h, h]) == keys;
    hide Sound, Right, CountAll, HoldsOnly, Lookup, HM.Grows, Represents;
    GrowthCountsTwice(c, n, m, h);
    CountAllConcat(Start(n), n, first, [h, h]);
    CountAllConcat(Start(n), n, first + [h, h], others);
    NewWordsAreCounted(c2, n, others, keys);
  }

  /** In the program, whose map has 32 slots: with 128 words that have different nonzero hashes, the seventeenth
      of them twice in a row, the last counter lies outside its block. */
  lemma CounterOutsideBlock(first: seq<Hash>, h: Hash, others: seq<Hash>)
    requires |first| == 16 && |others| == 111
    requires NoDuplicates(first + [h] + others) && 0 !in first + [h] + others
    ensures var w := WordsSeen(32, first + [h, h] + others);
            w == 129 && COUNTER_BYTES * w > BytesAfter(w)
  {
    OneTooMany(32, first, h, others);
    CounterInBlockIff(129);
  }

  // ---------------------------------------------------------------- which words are always counted right

  /** On every stream of these words the program counts the distinct ones. */
  ghost predicate AlwaysCountsRight(n: nat, words: set<Text>, hashOf: Text -> Hash)
    requires n >= 1
  {
    forall stream: seq<Text> | Vocabulary(stream) <= words ::
      WordsSeen(n, HashesOf(stream, hashOf)) == |Vocabulary(stream)|
  }

  /** That is so if and only if no word hashes to zero, no two words share a hash, and there are at most half as
      many words as slots in a new map. */
  lemma AlwaysCountsRightIff(n: nat, words: set<Text>, hashOf: Text -> Hash)
    requires n >= 1
    ensures AlwaysCountsRight(n, words, hashOf) <==>
            && (forall w :: w in words ==> hashOf(w) != 0)
            && Keys.NoSharedHash(words, hashOf) && |words| <= n / 2
  {
    if w :| w in words && hashOf(w) == 0 {
      ZeroIsCountedTwice(n, words, hashOf, w);
    } else if |words| <= n / 2 && Keys.NoSharedHash(words, hashOf) {
      forall stream: seq<Text> | Vocabulary(stream) <= words
        ensures WordsSeen(n, HashesOf(stream, hashOf)) == |Vocabulary(stream)|
      {
        StreamIsCounted(n, words, hashOf, stream);
      }
    } else if n / 2 == 0 || Keys.NoSharedHash(words, hashOf) {
      TooManyWords(n, words, hashOf);
    } else {
      var k, l :| k in words && l in words && hashOf(k) == hashOf(l) && k != l;
      SharedIsCountedOnce(n, words, hashOf, k, l);
    }
  }

  lemma WrongStream(n: nat, words: set<Text>, hashOf: Text -> Hash, stream: seq<Text>)
    requires n >= 1 && Vocabulary(stream) <= words
    requires WordsSeen(n, HashesOf(stream, hashOf)) != |Vocabulary(stream)|
    ensures !AlwaysCountsRight(n, words, hashOf)
  {
  }

  lemma StreamIsCounted(n: nat, words: set<Text>, hashOf: Text -> Hash, stream: seq<Text>)
    requires n >= 1 && (forall w :: w in words ==> hashOf(w) != 0) && Keys.NoSharedHash(words, hashOf)
    requires |words| <= n / 2 && Vocabulary(stream) <= words
    ensures WordsSeen(n, HashesOf(stream, hashOf)) == |Vocabulary(stream)|
    ensures 0 !in HashesOf(stream, hashOf) && |Vocabulary(HashesOf(stream, hashOf))| <= n / 2
  {
    HashesVocabulary(stream, hashOf);
    ImageSize(Vocabulary(stream), hashOf);
    SubsetSize(Vocabulary(stream), words);
    forall i | 0 <= i < |stream|
      ensures hashOf(stream[i]) != 0
    {
      assert stream[i] in Vocabulary(stream);
    }
    hide Vocabulary, WordsSeen;
    var m, ids := FewWordsAreCounted(n, HashesOf(stream, hashOf));
  }

  lemma ZeroIsCountedTwice(n: nat, words: set<Text>, hashOf: Text -> Hash, w: Text)
    requires n >= 1 && w in words && hashOf(w) == 0
    ensures !AlwaysCountsRight(n, words, hashOf)
  {
    var stream := [w, w];
    var c := Start(n);
    var c1 := CountStep(c, n, 0);
    CountsMiss(c, n, 0);
    CountsMiss(c1, n, 0);
    AbsentLookup(c.st.slots, 0);
    AbsentLookup(c1.st.slots, 0);
    assert HashesOf(stream, hashOf) == [0] + ([0] + []);
    CountAllCons(c, n, 0, [0]);
    CountAllCons(c1, n, 0, []);
    assert Vocabulary(stream) == {w};
  }

  lemma SharedIsCountedOnce(n: nat, words: set<Text>, hashOf: Text -> Hash, k: Text, l: Text)
    requires n >= 2 && k in words && l in words && k != l && hashOf(k) == hashOf(l) != 0
    ensures !AlwaysCountsRight(n, words, hashOf)
  {
    TwoThatShare(hashOf, k, l);
    hide HashesOf, WordsSeen, Vocabulary, Right, CountAll, AlwaysCountsRight, Sound;
    var m, ids := FewWordsAreCounted(n, [hashOf(k), hashOf(k)]);
    WrongStream(n, words, hashOf, [k, l]);
  }

  lemma TwoThatShare(hashOf: Text -> Hash, k: Text, l: Text)
    requires k != l && hashOf(k) == hashOf(l)
    ensures HashesOf([k, l], hashOf) == [hashOf(k), hashOf(k)]
    ensures Vocabulary([k, l]) == {k, l} && |Vocabulary([k, l])| == 2
    ensures |Vocabulary([hashOf(k), hashOf(k)])| == 1
  {
    var h := hashOf(k);
    assert Vocabulary([h, h]) == {h};
  }

  /** Some `k` of the words, as a list. */
  lemma TakeWords(words: set<Text>, k: nat) returns (list: seq<Text>)
    requires k <= |words|
    ensures |list| == k && NoDuplicates(list) && forall w :: w in list ==> w in words
  {
    if k == 0 {
      list := [];
    } else {
      var w :| w in words;
      var rest := TakeWords(words - {w}, k - 1);
      list := [w] + rest;
      assert w !in rest;
    }
  }

  lemma TooManyWords(n: nat, words: set<Text>, hashOf: Text -> Hash)
    requires n >= 1 && |words| > n / 2 && forall w :: w in words ==> hashOf(w) != 0
    requires n / 2 == 0 || Keys.NoSharedHash(words, hashOf)
    ensures !AlwaysCountsRight(n, words, hashOf)
  {
    var list := TakeWords(words, n / 2 + 1);
    var front, w := list[..n / 2], list[n / 2];
    assert list == front + [w] && w in list;
    HashesOfList(list, words, hashOf);
    HashesOfRepeat(front, w, hashOf);
    OneTooMany(n, HashesOf(front, hashOf), hashOf(w), []);
    VocabularySize(list, w);
    hide HashesOf, WordsSeen, AlwaysCountsRight;
    WrongStream(n, words, hashOf, list + [w]);
  }

  lemma HashesOfList(list: seq<Text>, words: set<Text>, hashOf: Text -> Hash)
    requires NoDuplicates(list) && forall w :: w in list ==> w in words && hashOf(w) != 0
    requires |list| == 1 || Keys.NoSharedHash(words, hashOf)
    ensures NoDuplicates(HashesOf(list, hashOf)) && 0 !in HashesOf(list, hashOf)
  {
    forall i, j | 0 <= i < j < |list|
      ensures hashOf(list[i]) != hashOf(list[j])
    {
      assert list[i] in list && list[j] in list;
    }
    forall i | 0 <= i < |list|
      ensures hashOf(list[i]) != 0
    {
      assert list[i] in list;
    }
  }

  lemma HashesOfRepeat(front: seq<Text>, w: Text, hashOf: Text -> Hash)
    ensures var first, h := HashesOf(front, hashOf), hashOf(w);
            && HashesOf(front + [w], hashOf) == first + [h] + []
            && HashesOf((front + [w]) + [w], hashOf) == first + [h, h] + []
  {
  }

  lemma VocabularySize(list: seq<Text>, w: Text)
    requires NoDuplicates(list) && w in list
    ensures |Vocabulary(list + [w])| == |list|
  {
    assert Vocabulary(list + [w]) == Vocabulary(list);
    IdsSize(list);
  }

  // ---------------------------------------------------------------- the program

  /** The two branches for one word. */
  method CountWord(table: HM.Map, counts: seq<nat>, h: Hash) returns (after: seq<nat>)
    requires table.Valid() && Sound(Counting(table.Abs(), counts), table.initialSize)
    modifies table, table.entries
    ensures table.Valid() && (table.entries == old(table.entries) || fresh(table.entries))
    ensures Counting(table.Abs(), after) == CountStep(old(Counting(table.Abs(), counts)), table.initialSize, h)
    ensures HasEmpty(old(table.Abs()).slots)
    ensures var found := Lookup(old(table.Abs()).slots, h).data;
            if found != 0 then
              && found <= |counts| && after == counts[found - 1 := counts[found - 1] + 1]
              && table.Abs() == old(table.Abs())
            else
              && after == counts + [1]
              && table.Abs() == HM.SetStep(old(table.Abs()), h, Handle(|counts| + 1, 4), true).0
  {
    FoundNamesCounter(Counting(table.Abs(), counts), table.initialSize, h);
    hide Sound, HM.Inv, HM.SetStep, Lookup;
    var found := table.Get(h);
    if found.data != 0 {
      // Seen word
      after := counts[found.data - 1 := counts[found.data - 1] + 1];
    } else {
      // New word
      after := counts + [1];
      var stored := table.Set(h, Handle(|after|, COUNTER_BYTES), true);
    }
  }

  lemma CountAllSnoc(n: nat, hs: seq<Hash>, i: nat)
    requires n >= 1 && i < |hs|
    ensures CountAll(Start(n), n, hs[..i + 1]) == CountStep(CountAll(Start(n), n, hs[..i]), n, hs[i])
  {
    var c := CountAll(Start(n), n, hs[..i]);
    hide Sound, CountStep;
    assert hs[..i + 1] == hs[..i] + ([hs[i]] + []);
    CountAllConcat(Start(n), n, hs[..i], [hs[i]] + []);
    CountAllCons(c, n, hs[i], []);
  }

  method CountWords(words: seq<Text>, hashOf: Text -> Hash) returns (table: HM.Map, counts: seq<nat>)
    ensures table.Valid() && fresh(table) && fresh(table.entries) && table.initialSize == 32
    ensures Counting(table.Abs(), counts) == CountAll(Start(32), 32, HashesOf(words, hashOf))
  {
    table := new HM.Map(32);
    counts := [];
    ghost var hs := HashesOf(words, hashOf);
    assert Counting(table.Abs(), counts) == CountAll(Start(32), 32, hs[..0]);
    hide Sound, HM.Inv, CountStep, CountAll;
    for i := 0 to |words|
      invariant table.Valid() && fresh(table) && fresh(table.entries) && table.initialSize == 32
      invariant Counting(table.Abs(), counts) == CountAll(Start(32), 32, hs[..i])
    {
      CountAllSnoc(32, hs, i);
      counts := CountWord(table, counts, hashOf(words[i]));
    }
    assert hs[..|words|] == hs;
  }

  lemma MatchesAreSlots(s: Slots, counts: seq<nat>, places: nat, r: Outcome)
    requires NamesCounters(s, counts) && IsCounted(s, counts, places, r)
    ensures |r.mostMatches| == |r.leastMatches| == |r.most| == |r.least| == places
    ensures forall p :: 0 <= p < places ==>
                          && r.mostMatches[p] == |SlotsCounting(s, counts, r.most[p])|
                          && r.leastMatches[p] == |SlotsCounting(s, counts, r.least[p])|
  {
    hide Iterated;
    forall p | 0 <= p < places
      ensures r.mostMatches[p] == |SlotsCounting(s, counts, r.most[p])|
      ensures r.leastMatches[p] == |SlotsCounting(s, counts, r.least[p])|
    {
      IteratedMatches(s, counts, r.most[p]);
      IteratedMatches(s, counts, r.least[p]);
    }
  }

  /** Counting and reporting over the map as it is written: the report is the selection over the counters, and the
      match counts over the values left in the table. With at most 16 distinct words, none of which hashes to
      zero or shares its hash, it is right. */
  method ReportAsWritten(words: seq<Text>, places: nat, hashOf: Text -> Hash) returns (r: Outcome)
    ensures r.Report? && r.wordsSeen == WordsSeen(32, HashesOf(words, hashOf))
    ensures var c := CountAll(Start(32), 32, HashesOf(words, hashOf)); IsCounted(c.st.slots, c.counts, places, r)
    ensures var c := CountAll(Start(32), 32, HashesOf(words, hashOf));
            && |r.mostMatches| == |r.leastMatches| == |r.most| == |r.least| == places
            && forall p :: 0 <= p < places ==>
                             && r.mostMatches[p] == |SlotsCounting(c.st.slots, c.counts, r.most[p])|
                             && r.leastMatches[p] == |SlotsCounting(c.st.slots, c.counts, r.least[p])|
    ensures |Vocabulary(words)| <= 16 && AllNonzero(words, hashOf) && Keys.NoSharedHash(Vocabulary(words), hashOf) ==>
              IsReport(words, places, r)
  {
    var table, counts := CountWords(words, hashOf);
    ghost var c := Counting(table.Abs(), counts);
    assert Sound(c, 32);
    HM.InvHasEmpty(c.st, 32);
    hide CountAll, IsReport;
    r := ReportOn(table.entries, counts, places);
    MatchesAreSlots(table.entries[..], counts, places, r);
    hide SlotsCounting;
    if |Vocabulary(words)| <= 16 && AllNonzero(words, hashOf) && Keys.NoSharedHash(Vocabulary(words), hashOf) {
      ReportIsRight(words, hashOf, places, r);
    }
  }

  lemma ReportIsRight(words: seq<Text>, hashOf: Text -> Hash, places: nat, r: Outcome)
    requires |Vocabulary(words)| <= 16 && AllNonzero(words, hashOf) && Keys.NoSharedHash(Vocabulary(words), hashOf)
    requires var c := CountAll(Start(32), 32, HashesOf(words, hashOf)); IsCounted(c.st.slots, c.counts, places, r)
    ensures IsReport(words, places, r)
  {
    var hs := HashesOf(words, hashOf);
    var c := CountAll(Start(32), 32, hs);
    StreamIsCounted(32, Vocabulary(words), hashOf, words);
    var m, ids := FewWordsAreCounted(32, hs);
    TallyLength(ids, hs, c.counts);
    IteratedCounters(c.st.slots, m, ids, c.counts);
    CountedReport(ids, hs, c.counts, places, r, c.st.slots);
    ReportOnWordsIff(words, hashOf, places, r);
  }
}
