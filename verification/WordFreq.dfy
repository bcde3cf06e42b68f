/** The word-frequency program of src/m65tool/m65tool.c over the repaired map, with two repairs of its
    own: counters are addressed by index (the source keeps pointers into a block that may move), and
    the capacity test counts elements (the source compares a number of elements with a number of
    bytes). Allocation failures end the program in the source and are not modelled here. */
module WordFreq {
  import opened Sequences
  import opened Strings
  import opened Table
  import opened Whitespace
  import Fnv
  import Keys
  import MapIter
  import RM = RepairedMap
  import StrBuf
  import TopCounts

  const INITIAL_COUNTS_SIZE := 128
  const COUNTER_BYTES := 4

  // ---------------------------------------------------------------- the capacity test as written

  /** The size in bytes of the counter block when `words_seen` has reached `w`, where the source compares the
      number of words with the number of bytes. */
  function BytesAfter(w: nat): nat {
    if w == 0 then COUNTER_BYTES * INITIAL_COUNTS_SIZE
    else if w > BytesAfter(w - 1) then 2 * BytesAfter(w - 1) else BytesAfter(w - 1)
  }

  lemma {:induction false} BytesBound(w: nat)
    ensures BytesAfter(w) >= 512 && (BytesAfter(w) == 512 || BytesAfter(w) < 2 * w)
  {
    if w > 0 {
      BytesBound(w - 1);
    }
  }

  /** As written, when `words_seen` has reached `w`, the last counter lies inside the block if and only if
      `w` is at most 128. How far `words_seen` gets over the map as written is told in `WrittenFreq`. */
  lemma CounterInBlockIff(w: nat)
    requires w >= 1
    ensures COUNTER_BYTES * w <= BytesAfter(w) <==> w <= INITIAL_COUNTS_SIZE
  {
    BytesBound(w);
  }

  // ---------------------------------------------------------------- sums and permutations

  lemma {:induction false} SumUpdate(a: seq<nat>, i: nat, x: nat)
    requires i < |a|
    ensures TopCounts.Sum(a[i := x]) == TopCounts.Sum(a) - a[i] + x
  {
    var n := |a| - 1;
    if i == n {
      assert a[i := x][..n] == a[..n];
    } else {
      assert a[i := x][..n] == a[..n][i := x];
      SumUpdate(a[..n], i, x);
    }
  }

  function Picked(c: seq<nat>, perm: seq<nat>): (r: seq<nat>)
    requires forall i :: 0 <= i < |perm| ==> perm[i] < |c|
    ensures |r| == |perm| && forall i :: 0 <= i < |r| ==> r[i] == c[perm[i]]
  {
    seq(|perm|, i requires 0 <= i < |perm| => c[perm[i]])
  }

  predicate PicksEachOnce(perm: seq<nat>, n: nat) {
    && (forall i :: 0 <= i < |perm| ==> perm[i] < n)
    && NoDuplicates(perm)
    && (forall x :: 0 <= x < n ==> x in perm)
  }

  lemma DropLast(perm: seq<nat>, n: nat, k: nat)
    requires PicksEachOnce(perm, n + 1) && k < |perm| && perm[k] == n
    ensures PicksEachOnce(perm[..k] + perm[k + 1..], n)
  {
    var rest := perm[..k] + perm[k + 1..];
    assert forall i :: 0 <= i < |rest| ==> rest[i] == if i < k then perm[i] else perm[i + 1];
    forall x | 0 <= x < n
      ensures x in rest
    {
      assert x in perm;
      var i :| 0 <= i < |perm| && perm[i] == x;
      assert rest[if i < k then i else i - 1] == x;
    }
  }

  /** Picking every index exactly once picks the bag of values. */
  lemma {:induction false} PickedOnce(c: seq<nat>, perm: seq<nat>)
    requires PicksEachOnce(perm, |c|)
    ensures multiset(Picked(c, perm)) == multiset(c)
    decreases |c|
  {
    if |perm| == 0 {
      assert |c| > 0 ==> 0 in perm;
    } else {
      var k := LastIsPicked(perm, |c|);
      var last := |c| - 1;
      var rest, front := perm[..k] + perm[k + 1..], c[..last];
      DropLast(perm, last, k);
      PickedDrop(c, perm, k);
      hide PicksEachOnce, Picked;
      PickedOnce(front, rest);
      RemoveAt(Picked(c, perm), k);
      assert c == front + [c[last]];
    }
  }

  lemma LastIsPicked(perm: seq<nat>, n: nat) returns (k: nat)
    requires PicksEachOnce(perm, n) && |perm| > 0
    ensures n > 0 && k < |perm| && perm[k] == n - 1
  {
    assert perm[0] < n;
    assert n - 1 in perm;
    k :| 0 <= k < |perm| && perm[k] == n - 1;
  }

  lemma PickedDrop(c: seq<nat>, perm: seq<nat>, k: nat)
    requires |c| > 0 && PicksEachOnce(perm, |c|) && k < |perm| && perm[k] == |c| - 1
    ensures var rest, p := perm[..k] + perm[k + 1..], Picked(c, perm);
            && (forall i :: 0 <= i < |rest| ==> rest[i] < |c| - 1)
            && Picked(c[..|c| - 1], rest) == p[..k] + p[k + 1..]
  {
    DropLast(perm, |c| - 1, k);
    var rest, p := perm[..k] + perm[k + 1..], Picked(c, perm);
    var q := Picked(c[..|c| - 1], rest);
    assert forall i :: 0 <= i < |rest| ==> rest[i] == if i < k then perm[i] else perm[i + 1];
    assert forall i :: 0 <= i < |q| ==> q[i] == (p[..k] + p[k + 1..])[i];
  }

  lemma RemoveAt(p: seq<nat>, k: nat)
    requires k < |p|
    ensures multiset(p) == multiset(p[..k] + p[k + 1..]) + multiset{p[k]}
  {
    assert p == p[..k] + [p[k]] + p[k + 1..];
  }

  // ---------------------------------------------------------------- what the counters mean

  /** What the program counts as one word: the map compares hashes only. */
  function HashesOf(words: seq<Text>, hashOf: Text -> Hash): (r: seq<Hash>)
    ensures |r| == |words| && forall i :: 0 <= i < |r| ==> r[i] == hashOf(words[i])
  {
    seq(|words|, i requires 0 <= i < |words| => hashOf(words[i]))
  }

  /** `ids` lists the distinct tokens, in order of their counters. */
  predicate Indexed(ids: seq<Hash>, tokens: seq<Hash>) {
    NoDuplicates(ids) && (forall h :: h in tokens ==> h in ids) && (forall h :: h in ids ==> h in tokens)
  }

  /** Counter `i` is the number of occurrences of token `i`. */
  predicate Tallied(counts: seq<nat>, ids: seq<Hash>, tokens: seq<Hash>) {
    |counts| == |ids| && forall i :: 0 <= i < |ids| ==> counts[i] == multiset(tokens)[ids[i]]
  }

  /** The map holds, under token `i`, the handle of counter `i`, and nothing else. */
  predicate Mapped(m: Contents, ids: seq<Hash>) {
    && (forall i :: 0 <= i < |ids| ==> ids[i] in m && m[ids[i]].data == i + 1)
    && (forall h :: h in m ==> 0 < m[h].data <= |ids| && ids[m[h].data - 1] == h)
  }

  function Vocabulary<T>(tokens: seq<T>): set<T> {
    set w | w in tokens
  }

  /** The number of distinct tokens that occur `f` times. */
  ghost function WordsWithFrequency<T>(tokens: seq<T>, f: nat): nat {
    |Having(tokens, tokens, f)|
  }

  /** Those of `ids` that occur `f` times in `tokens`. */
  ghost function Having<T>(ids: seq<T>, tokens: seq<T>, f: nat): set<T> {
    set w | w in ids && multiset(tokens)[w] == f
  }

  /** The numbers of occurrences of the distinct tokens. */
  ghost function Frequencies<T>(tokens: seq<T>): set<nat> {
    set w | w in tokens :: multiset(tokens)[w]
  }

  lemma {:induction false} IdsCount(ids: seq<Hash>, tokens: seq<Hash>, counts: seq<nat>, f: nat)
    requires NoDuplicates(ids) && Tallied(counts, ids, tokens)
    ensures |Having(ids, tokens, f)| == multiset(counts)[f]
    decreases |ids|
  {
    if |ids| > 0 {
      var n := |ids| - 1;
      IdsCount(ids[..n], tokens, counts[..n], f);
      assert counts == counts[..n] + [counts[n]];
      HavingSnoc(ids, tokens, f);
    }
  }

  lemma HavingSnoc(ids: seq<Hash>, tokens: seq<Hash>, f: nat)
    requires |ids| > 0 && NoDuplicates(ids)
    ensures |Having(ids, tokens, f)| ==
            |Having(ids[..|ids| - 1], tokens, f)| + if multiset(tokens)[ids[|ids| - 1]] == f then 1 else 0
  {
    var n := |ids| - 1;
    assert ids[n] !in ids[..n];
    assert forall w :: w in ids <==> w in ids[..n] || w == ids[n];
    assert Having(ids, tokens, f) ==
           Having(ids[..n], tokens, f) + if multiset(tokens)[ids[n]] == f then {ids[n]} else {};
  }

  lemma {:induction false} IdsSize<T>(ids: seq<T>)
    requires NoDuplicates(ids)
    ensures |Vocabulary(ids)| == |ids|
    decreases |ids|
  {
    if |ids| > 0 {
      var n := |ids| - 1;
      IdsSize(ids[..n]);
      assert ids == ids[..n] + [ids[n]] && ids[n] !in ids[..n];
      assert Vocabulary(ids) == Vocabulary(ids[..n]) + {ids[n]};
    }
  }

  lemma TallyMeans(ids: seq<Hash>, tokens: seq<Hash>, counts: seq<nat>, f: nat)
    requires Indexed(ids, tokens) && Tallied(counts, ids, tokens)
    ensures multiset(counts)[f] == WordsWithFrequency(tokens, f)
    ensures |counts| == |Vocabulary(tokens)|
  {
    IdsCount(ids, tokens, counts, f);
    IdsSize(ids);
    assert Having(ids, tokens, f) == Having(tokens, tokens, f);
    assert Vocabulary(ids) == Vocabulary(tokens);
  }

  /** Everything the program knows after counting `tokens`. */
  ghost predicate Tally(m: Contents, ids: seq<Hash>, counts: seq<nat>, tokens: seq<Hash>) {
    Indexed(ids, tokens) && Tallied(counts, ids, tokens) && Mapped(m, ids) && TopCounts.Sum(counts) == |tokens|
  }

  lemma TallyOfNothing(counts: seq<nat>)
    requires |counts| == 0
    ensures Tally(map[], [], counts, [])
  {
  }

  /** What the map answers: the counter of the token, or nothing when it is new. */
  lemma TallyFinds(m: Contents, ids: seq<Hash>, counts: seq<nat>, tokens: seq<Hash>, h: Hash)
    requires Tally(m, ids, counts, tokens)
    ensures |counts| == |ids| && ValueIn(m, h).data <= |ids|
    ensures if ValueIn(m, h).data != 0 then ids[ValueIn(m, h).data - 1] == h else h !in m && h !in ids
  {
  }

  lemma TallySeen(m: Contents, ids: seq<Hash>, counts: seq<nat>, tokens: seq<Hash>, idx: nat)
    requires Tally(m, ids, counts, tokens) && idx < |ids| == |counts|
    ensures Tally(m, ids, counts[idx := counts[idx] + 1], tokens + [ids[idx]])
  {
    SumUpdate(counts, idx, counts[idx] + 1);
    TokensSnoc(tokens, ids[idx]);
    TalliedSeen(ids, counts, tokens, idx);
    hide Mapped, Tallied, TopCounts.Sum, NoDuplicates;
    assert ids[idx] in ids;
  }

  lemma TalliedSeen(ids: seq<Hash>, counts: seq<nat>, tokens: seq<Hash>, idx: nat)
    requires NoDuplicates(ids) && Tallied(counts, ids, tokens) && idx < |ids|
    ensures Tallied(counts[idx := counts[idx] + 1], ids, tokens + [ids[idx]])
  {
    TokensSnoc(tokens, ids[idx]);
    forall i | 0 <= i < |ids| && i != idx
      ensures ids[i] != ids[idx]
    {
      assert i < idx || idx < i;
    }
  }

  lemma TokensSnoc(tokens: seq<Hash>, h: Hash)
    ensures multiset(tokens + [h]) == multiset(tokens) + multiset{h}
    ensures forall w :: w in tokens + [h] <==> w in tokens || w == h
  {
  }

  lemma TallyNew(m: Contents, ids: seq<Hash>, counts: seq<nat>, tokens: seq<Hash>, h: Hash, v: Handle)
    requires Tally(m, ids, counts, tokens) && h !in ids && h !in m && v.data == |ids| + 1
    ensures Tally(m[h := v], ids + [h], counts + [1], tokens + [h])
  {
    IndexedNew(ids, counts, tokens, h);
    MappedNew(m, ids, h, v);
    hide Mapped, Indexed, Tallied;
    assert (counts + [1])[..|counts|] == counts;
  }

  lemma IndexedNew(ids: seq<Hash>, counts: seq<nat>, tokens: seq<Hash>, h: Hash)
    requires Indexed(ids, tokens) && Tallied(counts, ids, tokens) && h !in ids
    ensures Indexed(ids + [h], tokens + [h]) && Tallied(counts + [1], ids + [h], tokens + [h])
  {
    TokensSnoc(tokens, h);
    TokensSnoc(ids, h);
    assert multiset(tokens)[h] == 0;
    forall i | 0 <= i < |ids|
      ensures (counts + [1])[i] == multiset(tokens + [h])[(ids + [h])[i]]
    {
      assert ids[i] in ids;
    }
  }

  lemma MappedNew(m: Contents, ids: seq<Hash>, h: Hash, v: Handle)
    requires Mapped(m, ids) && h !in m && v.data == |ids| + 1
    ensures Mapped(m[h := v], ids + [h])
  {
  }

  // ---------------------------------------------------------------- from hashes to words

  /** No word hashes to zero. */
  predicate AllNonzero(words: seq<Text>, hashOf: Text -> Hash) {
    forall i :: 0 <= i < |words| ==> hashOf(words[i]) != 0
  }

  /** The program stops when a word cannot be stored in the map; otherwise it reports how many words it has
      seen, the most and the least frequent counts, and how many words match each of these. */
  datatype Outcome = Stopped | Report(wordsSeen: nat, most: seq<nat>, least: seq<nat>,
                                      mostMatches: seq<nat>, leastMatches: seq<nat>)

  /** A right report, for tokens of any kind: the number of distinct ones, the largest and the smallest
      numbers of occurrences, how many tokens have each of these, and that these cover all tokens if and
      only if there are no more distinct numbers of occurrences than places. */
  ghost predicate IsReport<T>(tokens: seq<T>, places: nat, r: Outcome) {
    && r.Report? && r.wordsSeen == |Vocabulary(tokens)|
    && |r.most| == |r.least| == |r.mostMatches| == |r.leastMatches| == places
    && TopCounts.IsSelection(true, r.most, Frequencies(tokens))
    && TopCounts.IsSelection(false, r.least, Frequencies(tokens))
    && (forall p :: 0 <= p < places ==> r.mostMatches[p] == WordsWithFrequency(tokens, r.most[p]))
    && (forall p :: 0 <= p < places ==> r.leastMatches[p] == WordsWithFrequency(tokens, r.least[p]))
    && (TopCounts.Sum(r.mostMatches) == r.wordsSeen <==> |Frequencies(tokens)| <= places)
    && (TopCounts.Sum(r.leastMatches) == r.wordsSeen <==> |Frequencies(tokens)| <= places)
  }

  /** Spelled out: how many different tokens there are; the largest and the smallest numbers of occurrences, in
      order, none left out that belongs between them; and how many tokens occur that often. */
  lemma ReportMeans<T>(tokens: seq<T>, places: nat, r: Outcome)
    requires IsReport(tokens, places, r)
    ensures r.Report? && r.wordsSeen == |set w | w in tokens|
    ensures |r.most| == |r.least| == |r.mostMatches| == |r.leastMatches| == places
    ensures forall p, q :: 0 <= p < q < places && r.most[q] != 0 ==> r.most[p] > r.most[q]
    ensures forall p, q :: 0 <= p < q < places && r.least[q] != 0 ==> 0 < r.least[p] < r.least[q]
    ensures forall w, p :: w in tokens && 0 <= p < places && multiset(tokens)[w] !in r.most ==>
                             r.most[p] > multiset(tokens)[w]
    ensures forall w, p :: w in tokens && 0 <= p < places && multiset(tokens)[w] !in r.least ==>
                             0 < r.least[p] < multiset(tokens)[w]
    ensures forall p :: 0 <= p < places ==>
                          && r.mostMatches[p] == |set w | w in tokens && multiset(tokens)[w] == r.most[p]|
                          && r.leastMatches[p] == |set w | w in tokens && multiset(tokens)[w] == r.least[p]|
    ensures forall p :: 0 <= p < places ==>
                          && (r.most[p] != 0 ==> r.mostMatches[p] > 0)
                          && (r.least[p] != 0 ==> r.leastMatches[p] > 0)
  {
    FrequenciesMean(tokens);
    TopCounts.SelectionMeans(true, r.most, Frequencies(tokens));
    TopCounts.SelectionMeans(false, r.least, Frequencies(tokens));
    hide TopCounts.IsSelection, Frequencies, TopCounts.Sum;
  }

  lemma FrequenciesMean<T>(tokens: seq<T>)
    ensures 0 !in Frequencies(tokens) && forall w :: w in tokens ==> multiset(tokens)[w] in Frequencies(tokens)
    ensures forall f :: f in Frequencies(tokens) ==> WordsWithFrequency(tokens, f) > 0
  {
    forall f | f in Frequencies(tokens)
      ensures WordsWithFrequency(tokens, f) > 0
    {
      var w :| w in tokens && multiset(tokens)[w] == f;
      assert w in Having(tokens, tokens, f);
    }
  }

  ghost function Image(words: set<Text>, hashOf: Text -> Hash): set<Hash> {
    set w | w in words :: hashOf(w)
  }

  /** Words have as many hashes as there are words if and only if no two of them share one. */
  lemma {:induction false} ImageSize(words: set<Text>, hashOf: Text -> Hash)
    ensures |Image(words, hashOf)| <= |words|
    ensures |Image(words, hashOf)| == |words| <==> Keys.NoSharedHash(words, hashOf)
    decreases |words|
  {
    if words != {} {
      var w :| w in words;
      var rest := words - {w};
      ImageSize(rest, hashOf);
      assert words == rest + {w};
      assert Image(words, hashOf) == Image(rest, hashOf) + {hashOf(w)};
      if hashOf(w) in Image(rest, hashOf) {
        var u :| u in rest && hashOf(u) == hashOf(w);
        assert u in words && !Keys.NoSharedHash(words, hashOf);
      }
    }
  }

  lemma HashesVocabulary(words: seq<Text>, hashOf: Text -> Hash)
    ensures Vocabulary(HashesOf(words, hashOf)) == Image(Vocabulary(words), hashOf)
  {
    var hashes := HashesOf(words, hashOf);
    forall w | w in words
      ensures hashOf(w) in hashes
    {
      var i :| 0 <= i < |words| && words[i] == w;
      assert hashes[i] == hashOf(w);
    }
  }

  /** Without shared hashes a word occurs as often as its hash. */
  lemma {:induction false} HashesCount(words: seq<Text>, hashOf: Text -> Hash, w: Text)
    requires Keys.NoSharedHash(Vocabulary(words) + {w}, hashOf)
    ensures multiset(HashesOf(words, hashOf))[hashOf(w)] == multiset(words)[w]
    decreases |words|
  {
    if |words| > 0 {
      var n := |words| - 1;
      var front, last := words[..n], words[n];
      assert words == front + [last];
      assert HashesOf(words, hashOf) == HashesOf(front, hashOf) + [hashOf(last)];
      assert last in words && forall u :: u in front ==> u in words;
      assert last in Vocabulary(words) + {w} && w in Vocabulary(words) + {w};
      HashesCount(front, hashOf, w);
    }
  }

  lemma HashesOccur(words: seq<Text>, hashOf: Text -> Hash)
    requires Keys.NoSharedHash(Vocabulary(words), hashOf)
    ensures var hashes := HashesOf(words, hashOf);
            && (forall w :: w in words ==> hashOf(w) in hashes && multiset(hashes)[hashOf(w)] == multiset(words)[w])
            && (forall h :: h in hashes ==> exists w :: w in words && hashOf(w) == h)
  {
    var hashes := HashesOf(words, hashOf);
    forall w | w in words
      ensures hashOf(w) in hashes && multiset(hashes)[hashOf(w)] == multiset(words)[w]
    {
      assert Vocabulary(words) + {w} == Vocabulary(words);
      HashesCount(words, hashOf, w);
      var i :| 0 <= i < |words| && words[i] == w;
      assert hashes[i] == hashOf(w);
    }
    forall h | h in hashes
      ensures exists w :: w in words && hashOf(w) == h
    {
      var i :| 0 <= i < |hashes| && hashes[i] == h;
      assert words[i] in words;
    }
  }

  lemma HashesFrequencies(words: seq<Text>, hashOf: Text -> Hash)
    requires Keys.NoSharedHash(Vocabulary(words), hashOf)
    ensures Frequencies(HashesOf(words, hashOf)) == Frequencies(words)
  {
    HashesOccur(words, hashOf);
  }

  lemma HashesWithFrequency(words: seq<Text>, hashOf: Text -> Hash, f: nat)
    requires Keys.NoSharedHash(Vocabulary(words), hashOf)
    ensures WordsWithFrequency(HashesOf(words, hashOf), f) == WordsWithFrequency(words, f)
  {
    var hashes := HashesOf(words, hashOf);
    var having := Having(words, words, f);
    HashesOccur(words, hashOf);
    forall h | h in Having(hashes, hashes, f)
      ensures h in Image(having, hashOf)
    {
      var w :| w in words && hashOf(w) == h;
      assert w in having;
    }
    assert Having(hashes, hashes, f) == Image(having, hashOf);
    assert forall w :: w in having ==> w in Vocabulary(words);
    ImageSize(having, hashOf);
  }

  /** A report on the hashes of words is a report on the words if and only if no two of them share one. */
  lemma ReportOnWordsIff(words: seq<Text>, hashOf: Text -> Hash, places: nat, r: Outcome)
    requires IsReport(HashesOf(words, hashOf), places, r)
    ensures IsReport(words, places, r) <==> Keys.NoSharedHash(Vocabulary(words), hashOf)
  {
    HashesVocabulary(words, hashOf);
    ImageSize(Vocabulary(words), hashOf);
    hide Vocabulary, Image, Having, Frequencies, WordsWithFrequency, TopCounts.IsSelection, TopCounts.Sum;
    if Keys.NoSharedHash(Vocabulary(words), hashOf) {
      HashesFrequencies(words, hashOf);
      forall f: nat
        ensures WordsWithFrequency(HashesOf(words, hashOf), f) == WordsWithFrequency(words, f)
      {
        HashesWithFrequency(words, hashOf, f);
      }
    }
  }

  // ---------------------------------------------------------------- counting

  lemma HashesOfConcat(a: seq<Text>, b: seq<Text>, hashOf: Text -> Hash)
    ensures HashesOf(a + b, hashOf) == HashesOf(a, hashOf) + HashesOf(b, hashOf)
    ensures AllNonzero(a + b, hashOf) <==> AllNonzero(a, hashOf) && AllNonzero(b, hashOf)
  {
    var all := a + b;
    assert forall i :: 0 <= i < |a| ==> all[i] == a[i];
    assert forall i :: 0 <= i < |b| ==> all[|a| + i] == b[i];
  }

  lemma NothingCounted(hashOf: Text -> Hash)
    ensures HashesOf([], hashOf) == [] && AllNonzero([], hashOf)
  {
  }

  function RestOfLine(line: Str): seq<Text> {
    if line.Valid? then Words(line.text) else []
  }

  /** Popping a word off the line moves it from the words still to count to those counted. */
  lemma PopRest(counted: seq<Text>, t: Text)
    ensures var (rest, part) := WhitespacePop(t);
            && (rest.Valid? ==> |rest.text| < |t|)
            && counted + Words(t) == (if |part| > 0 then counted + [part] else counted) + RestOfLine(rest)
  {
    var (rest, part) := WhitespacePop(t);
    PopWords(t);
    if |part| > 0 {
      assert counted + ([part] + RestOfLine(rest)) == (counted + [part]) + RestOfLine(rest);
    }
  }

  class Counter {
    const hashOf: Text -> Hash
    const table: RM.Map
    var counts: array<nat>
    var wordsSeen: nat
    /** The hash of the word of each counter, and of every word counted so far. */
    ghost var ids: seq<Hash>
    ghost var tokens: seq<Hash>

    ghost predicate Valid()
      reads this, counts, table, table.entries
    {
      && table.Valid()
      && |ids| == wordsSeen <= counts.Length && counts.Length >= 1
      && Tally(table.contents, ids, counts[..wordsSeen], tokens)
    }

    constructor (table: RM.Map, hashOf: Text -> Hash)
      requires table.Valid() && table.contents == map[]
      ensures Valid() && fresh(counts) && tokens == [] && this.table == table && this.hashOf == hashOf
    {
      this.hashOf := hashOf;
      this.table := table;
      counts := new nat[INITIAL_COUNTS_SIZE](_ => 0);
      wordsSeen := 0;
      ids, tokens := [], [];
      new;
      TallyOfNothing(counts[..0]);
    }

    /** The two branches for one word inside `process_line`. The program stops at a word that the map
        refuses, which is one that hashes to zero. */
    method CountWord(word: Text) returns (ok: bool)
      requires Valid()
      modifies this, counts, table, table.entries
      ensures ok <==> hashOf(word) != 0
      ensures ok ==> Valid() && tokens == old(tokens) + [hashOf(word)]
      ensures counts == old(counts) || fresh(counts)
      ensures table.entries == old(table.entries) || fresh(table.entries)
    {
      hide RM.StandsFor, Tally;
      ghost var c := counts[..wordsSeen];
      var h := hashOf(word);
      TallyFinds(table.contents, ids, c, tokens, h);
      NoKeyIsZero();
      var entry := table.Get(h);
      if entry.data != 0 {
        // Seen word
        var idx := entry.data - 1;
        TallySeen(table.contents, ids, c, tokens, idx);
        counts[idx] := counts[idx] + 1;
        assert counts[..wordsSeen] == c[idx := c[idx] + 1];
      } else {
        // New word
        var value := Handle(wordsSeen + 1, COUNTER_BYTES);
        TallyNew(table.contents, ids, c, tokens, h, value);
        AddCounter();
        var stored := table.Set(h, value, true);
        if !stored {
          return false;
        }
        ids := ids + [h];
      }
      tokens := tokens + [h];
      return true;
    }

    lemma NoKeyIsZero()
      requires table.Valid()
      ensures 0 !in table.contents
    {
    }

    /** A counter for a new word, growing the array when there is no room. */
    method AddCounter()
      requires wordsSeen <= counts.Length && counts.Length >= 1
      modifies this`counts, this`wordsSeen, counts
      ensures wordsSeen == old(wordsSeen) + 1 <= counts.Length
      ensures counts.Length == if wordsSeen > old(counts.Length) then 2 * old(counts.Length) else old(counts.Length)
      ensures counts[..wordsSeen] == old(counts[..wordsSeen]) + [1]
      ensures counts == old(counts) || fresh(counts)
    {
      ghost var c := counts[..wordsSeen];
      wordsSeen := wordsSeen + 1;
      if wordsSeen > counts.Length {
        var bigger := new nat[2 * counts.Length](_ => 0);
        forall i | 0 <= i < counts.Length {
          bigger[i] := counts[i];
        }
        counts := bigger;
      }
      counts[wordsSeen - 1] := 1;
      assert counts[..wordsSeen] == c + [1];
    }

    /** One more word after those counted since `tokens` was `base`. */
    method CountNext(word: Text, ghost base: seq<Hash>, ghost counted: seq<Text>) returns (ok: bool)
      requires Valid() && tokens == base + HashesOf(counted, hashOf) && AllNonzero(counted, hashOf)
      modifies this, counts, table, table.entries
      ensures ok <==> AllNonzero(counted + [word], hashOf)
      ensures ok ==> Valid() && tokens == base + HashesOf(counted + [word], hashOf)
      ensures counts == old(counts) || fresh(counts)
      ensures table.entries == old(table.entries) || fresh(table.entries)
    {
      hide Valid;
      HashesOfConcat(counted, [word], hashOf);
      assert AllNonzero([word], hashOf) <==> hashOf(word) != 0 by {
        assert [word][0] == word;
      }
      hide AllNonzero;
      ok := CountWord(word);
    }

    /** `process_line`: every nonempty word popped off the line is counted. */
    method ProcessLine(text: Text) returns (ok: bool)
      requires Valid()
      modifies this, counts, table, table.entries
      ensures ok <==> AllNonzero(Words(text), hashOf)
      ensures ok ==> Valid() && tokens == old(tokens) + HashesOf(Words(text), hashOf)
      ensures counts == old(counts) || fresh(counts)
      ensures table.entries == old(table.entries) || fresh(table.entries)
    {
      hide Valid, Words, WhitespacePop, HashesOf, AllNonzero;
      var line := Str.Valid(text);
      ghost var counted: seq<Text> := [];
      NothingCounted(hashOf);
      assert counted + RestOfLine(line) == Words(text);
      while line.Valid?
        invariant Valid() && Words(text) == counted + RestOfLine(line) && AllNonzero(counted, hashOf)
        invariant tokens == old(tokens) + HashesOf(counted, hashOf)
        invariant counts == old(counts) || fresh(counts)
        invariant table.entries == old(table.entries) || fresh(table.entries)
        decreases if line.Valid? then |line.text| + 1 else 0
      {
        var word := Invalid;
        PopRest(counted, line.text);
        line, word := SplitWhitespacePop(line, word);
        if |word.text| > 0 {
          ok := CountNext(word.text, old(tokens), counted);
          counted := counted + [word.text];
          if !ok {
            HashesOfConcat(counted, RestOfLine(line), hashOf);
            return;
          }
        }
      }
      assert counted + [] == counted;
      return true;
    }

    /** The line buffer is usable, and is nobody else's memory. */
    ghost predicate Ready(buf: StrBuf.Buffer)
      reads this, table, buf, buf.data
    {
      && buf.Valid() && buf.data != null && 1 <= buf.data.Length && buf.length <= buf.data.Length
      && buf.data as object != counts && buf.data as object != table.entries
    }

    /** A line of words after those counted since `tokens` was `base`. */
    method CountLine(text: Text, ghost base: seq<Hash>, ghost counted: seq<Text>) returns (ok: bool)
      requires Valid() && tokens == base + HashesOf(counted, hashOf) && AllNonzero(counted, hashOf)
      modifies this, counts, table, table.entries
      ensures ok <==> AllNonzero(counted + Words(text), hashOf)
      ensures ok ==> Valid() && tokens == base + HashesOf(counted + Words(text), hashOf)
      ensures counts == old(counts) || fresh(counts)
      ensures table.entries == old(table.entries) || fresh(table.entries)
    {
      hide Valid, Words, HashesOf, AllNonzero;
      HashesOfConcat(counted, Words(text), hashOf);
      ok := ProcessLine(text);
      assert ok ==> tokens == base + HashesOf(counted + Words(text), hashOf);
    }

    /** One character of the reading loop: a newline ends the line, anything else extends it. `counted` is
        the words counted since `tokens` was `base`, and `now` those counted afterwards. */
    method ReadChar(buf: StrBuf.Buffer, c: int, ghost rest: Text, ghost base: seq<Hash>, ghost counted: seq<Text>)
      returns (ok: bool, ghost now: seq<Text>)
      requires Valid() && Ready(buf) && tokens == base + HashesOf(counted, hashOf) && AllNonzero(counted, hashOf)
      modifies this, counts, table, table.entries, buf, buf.data
      ensures ok <==> AllNonzero(now, hashOf)
      ensures ok ==> Valid() && Ready(buf) && tokens == base + HashesOf(now, hashOf)
      ensures ok ==> counted + Words(old(buf.Contents()) + ([c] + rest)) == now + Words(buf.Contents() + rest)
      ensures !ok ==> counted + Words(old(buf.Contents()) + ([c] + rest)) == now + Words(rest)
      ensures buf.data == old(buf.data) || fresh(buf.data)
      ensures counts == old(counts) || fresh(counts)
      ensures table.entries == old(table.entries) || fresh(table.entries)
    {
      hide Valid, Words, HashesOf, AllNonzero, StrBuf.Buffer.Valid;
      ghost var text := buf.Contents();
      if c == NEWLINE {
        LineEnds(text, rest);
        assert counted + (Words(text) + Words(rest)) == (counted + Words(text)) + Words(rest);
        now := counted + Words(text);
        ok := CountLine(buf.data[..buf.length], base, counted);
        buf.Reset();
        assert buf.Contents() + rest == rest;
      } else {
        assert text + ([c] + rest) == (text + [c]) + rest;
        var extended := buf.ConcatenateText([c], true, true);
        ok, now := true, counted;
      }
    }

    /** The reading loop of `word_freq`: a line at a time into the buffer, cleared at each newline; the
        words counted are those of the whole stream, because a newline is itself whitespace. */
    method CountStream(stream: Text) returns (ok: bool)
      requires Valid()
      modifies this, counts, table, table.entries
      ensures ok <==> AllNonzero(Words(stream), hashOf)
      ensures ok ==> Valid() && tokens == old(tokens) + HashesOf(Words(stream), hashOf)
      ensures counts == old(counts) || fresh(counts)
      ensures table.entries == old(table.entries) || fresh(table.entries)
    {
      hide Valid, Words, HashesOf, AllNonzero, StrBuf.Buffer.Valid;
      var buf := new StrBuf.Buffer(100);
      ghost var counted: seq<Text> := [];
      NothingCounted(hashOf);
      assert buf.Contents() + stream[0..] == stream && counted + Words(stream) == Words(stream);
      var i := 0;
      while i < |stream|
        invariant 0 <= i <= |stream| && Valid() && fresh(buf) && fresh(buf.Block()) && Ready(buf)
        invariant Words(stream) == counted + Words(buf.Contents() + stream[i..])
        invariant AllNonzero(counted, hashOf) && tokens == old(tokens) + HashesOf(counted, hashOf)
        invariant counts == old(counts) || fresh(counts)
        invariant table.entries == old(table.entries) || fresh(table.entries)
      {
        assert stream[i..] == [stream[i]] + stream[i + 1..];
        ok, counted := ReadChar(buf, stream[i], stream[i + 1..], old(tokens), counted);
        if !ok {
          HashesOfConcat(counted, Words(stream[i + 1..]), hashOf);
          return;
        }
        i := i + 1;
      }
      assert buf.Contents() + stream[i..] == buf.Contents();
      if buf.length > 0 {
        ok := CountLine(buf.data[..buf.length], old(tokens), counted);
      } else {
        NoWords();
        assert buf.Contents() == [] && counted + [] == counted;
        ok := true;
      }
    }

    /** The report on what has been counted. */
    method MakeReport(places: nat) returns (r: Outcome)
      requires Valid()
      ensures IsReport(tokens, places, r)
    {
      hide RM.StandsFor, Lists, Mapped, Indexed, Tallied, IsReport, IsCounted, MapIter.ValuedSlots;
      var c := counts[..wordsSeen];
      CountsAreFrequencies(ids, tokens, c);
      TallyLength(ids, tokens, c);
      table.ValidListsContents();
      IteratedCounters(table.entries[..], table.contents, ids, c);
      ValuesNameCounters(table.entries[..], table.contents, ids);
      r := ReportOn(table.entries, c, places);
      CountedReport(ids, tokens, c, places, r, table.entries[..]);
    }
  }

  lemma ValuesNameCounters(s: Slots, m: Contents, ids: seq<Hash>)
    requires Lists(s, m) && Mapped(m, ids)
    ensures forall q :: 0 <= q < |s| ==> s[q].value.data <= |ids|
  {
  }

  /** The counters behind the values that an iteration over the map meets. */
  ghost function Iterated(s: Slots, c: seq<nat>): (values: seq<nat>)
    requires forall q :: 0 <= q < |s| ==> s[q].value.data <= |c|
  {
    MapIter.ValuedSlotsCarry(s);
    Picked(c, IndicesAt(s, MapIter.ValuedSlots(s)))
  }

  /** Selections over the counters, and how many of the iterated counters match each place. */
  ghost predicate IsCounted(s: Slots, c: seq<nat>, places: nat, r: Outcome)
    requires forall q :: 0 <= q < |s| ==> s[q].value.data <= |c|
  {
    && r.Report? && r.wordsSeen == |c|
    && |r.most| == |r.least| == |r.mostMatches| == |r.leastMatches| == places
    && TopCounts.IsSelection(true, r.most, TopCounts.CountsSeen(c))
    && TopCounts.IsSelection(false, r.least, TopCounts.CountsSeen(c))
    && (forall p :: 0 <= p < places ==> r.mostMatches[p] == multiset(Iterated(s, c))[r.most[p]])
    && (forall p :: 0 <= p < places ==> r.leastMatches[p] == multiset(Iterated(s, c))[r.least[p]])
  }

  /** The entry carries a value whose counter is `x`. */
  predicate Counts(e: Entry, c: seq<nat>, x: nat) {
    0 < e.value.data <= |c| && c[e.value.data - 1] == x
  }

  /** The slots with such entries. */
  ghost function SlotsCounting(s: Slots, c: seq<nat>, x: nat): set<nat> {
    set q: nat | q < |s| && Counts(s[q], c, x)
  }

  lemma SlotsCountingSnoc(s: Slots, c: seq<nat>, x: nat)
    requires |s| > 0
    ensures |SlotsCounting(s, c, x)| ==
            |SlotsCounting(s[..|s| - 1], c, x)| + if Counts(s[|s| - 1], c, x) then 1 else 0
  {
    hide Counts;
    var last := |s| - 1;
    var front := s[..last];
    assert SlotsCounting(s, c, x) == SlotsCounting(front, c, x) + if Counts(s[last], c, x) then {last} else {};
  }

  /** The iterated counters that are `x` are as many as those slots. */
  lemma {:induction false} IteratedMatches(s: Slots, c: seq<nat>, x: nat)
    requires forall q :: 0 <= q < |s| ==> s[q].value.data <= |c|
    ensures multiset(Iterated(s, c))[x] == |SlotsCounting(s, c, x)|
    ensures forall q :: q in SlotsCounting(s, c, x) <==>
                          0 <= q < |s| && s[q].value.data != 0 && c[s[q].value.data - 1] == x
    decreases |s|
  {
    if |s| == 0 {
      assert SlotsCounting(s, c, x) == {};
    } else {
      IteratedMatches(s[..|s| - 1], c, x);
      IteratedSnoc(s, c);
      SlotsCountingSnoc(s, c, x);
    }
  }

  lemma IteratedSnoc(s: Slots, c: seq<nat>)
    requires |s| > 0 && forall q :: 0 <= q < |s| ==> s[q].value.data <= |c|
    ensures var last := |s| - 1;
            Iterated(s, c) ==
            Iterated(s[..last], c) + if s[last].value.data != 0 then [c[s[last].value.data - 1]] else []
  {
    MapIter.ValuedSlotsCarry(s);
    MapIter.ValuedSlotsCarry(s[..|s| - 1]);
  }

  /** The report of `word_freq`: the selection over the counters, then the match counts over the iterated map
      values. */
  method ReportOn(entries: array<Entry>, c: seq<nat>, places: nat) returns (r: Outcome)
    requires entries.Length > 0 && 0 !in c && forall q :: 0 <= q < entries.Length ==> entries[q].value.data <= |c|
    ensures IsCounted(entries[..], c, places, r)
  {
    var most, least := TopCounts.SelectFrequencies(c, places);
    var visited := MapIter.VisitAll(entries);
    MapIter.ValuedSlotsCarry(entries[..]);
    hide TopCounts.IsSelection, MapIter.ValuedSlots;
    var values: seq<nat> := Picked(c, IndicesAt(entries[..], visited));
    assert values == Iterated(entries[..], c);
    var mostMatches := TopCounts.CountMatches(values, most);
    var leastMatches := TopCounts.CountMatches(values, least);
    r := Report(|c|, most[..], least[..], mostMatches[..], leastMatches[..]);
  }

  /** Selections over the counters, and how many counters match each place, are a right report. */
  lemma CountedReport(ids: seq<Hash>, tokens: seq<Hash>, c: seq<nat>, places: nat, r: Outcome, s: Slots)
    requires Indexed(ids, tokens) && Tallied(c, ids, tokens)
    requires forall q :: 0 <= q < |s| ==> s[q].value.data <= |c|
    requires IsCounted(s, c, places, r) && multiset(Iterated(s, c)) == multiset(c)
    ensures IsReport(tokens, places, r)
  {
    hide Indexed, Tallied, TopCounts.IsSelection, WordsWithFrequency;
    CountsAreFrequencies(ids, tokens, c);
    TopCounts.SumOfMatches(r.mostMatches, r.most, c);
    TopCounts.SumOfMatches(r.leastMatches, r.least, c);
    TopCounts.MatchTotals(true, r.most, c);
    TopCounts.MatchTotals(false, r.least, c);
    TallyMeans(ids, tokens, c, 0);
    forall p | 0 <= p < places
      ensures r.mostMatches[p] == WordsWithFrequency(tokens, r.most[p])
      ensures r.leastMatches[p] == WordsWithFrequency(tokens, r.least[p])
    {
      TallyMeans(ids, tokens, c, r.most[p]);
      TallyMeans(ids, tokens, c, r.least[p]);
    }
  }

  lemma CountsAreFrequencies(ids: seq<Hash>, tokens: seq<Hash>, counts: seq<nat>)
    requires Indexed(ids, tokens) && Tallied(counts, ids, tokens)
    ensures 0 !in counts && TopCounts.CountsSeen(counts) == Frequencies(tokens)
  {
    forall i | 0 <= i < |counts|
      ensures counts[i] > 0 && counts[i] in Frequencies(tokens)
    {
      assert ids[i] in ids && ids[i] in tokens;
    }
    forall w | w in tokens
      ensures multiset(tokens)[w] in counts
    {
      var i :| 0 <= i < |ids| && ids[i] == w;
      assert counts[i] == multiset(tokens)[w];
    }
  }

  lemma TallyLength(ids: seq<Hash>, tokens: seq<Hash>, counts: seq<nat>)
    requires Tallied(counts, ids, tokens)
    ensures |counts| == |ids|
  {
  }

  /** The counter indices behind the iterated values. */
  function IndicesAt(s: Slots, visited: seq<nat>): (perm: seq<nat>)
    requires forall i :: 0 <= i < |visited| ==> visited[i] < |s| && s[visited[i]].value.data > 0
    ensures |perm| == |visited| && forall i :: 0 <= i < |perm| ==> perm[i] == s[visited[i]].value.data - 1
  {
    seq(|visited|, i requires 0 <= i < |visited| => s[visited[i]].value.data - 1)
  }

  /** Iterating over the map meets every counter exactly once. */
  lemma IterationPicksEachOnce(s: Slots, m: Contents, ids: seq<Hash>, visited: seq<nat>)
    requires MapIter.VisitsKeysOnce(s, m, visited) && Mapped(m, ids)
    ensures forall i :: 0 <= i < |visited| ==> visited[i] < |s| && s[visited[i]].value.data > 0
    ensures PicksEachOnce(IndicesAt(s, visited), |ids|)
  {
    forall i | 0 <= i < |visited|
      ensures 0 < s[visited[i]].value.data <= |ids| && ids[s[visited[i]].value.data - 1] == s[visited[i]].hash
    {
      assert s[visited[i]].hash in m;
    }
    var perm := IndicesAt(s, visited);
    assert forall i :: 0 <= i < |perm| ==> perm[i] < |ids| && ids[perm[i]] == s[visited[i]].hash;
    assert NoDuplicates(perm) by {
      hide Mapped;
      forall i, j | 0 <= i < j < |perm|
        ensures perm[i] != perm[j]
      {
        assert s[visited[i]].hash != s[visited[j]].hash;
      }
    }
    forall x | 0 <= x < |ids|
      ensures x in perm
    {
      assert ids[x] in m;
      var i :| 0 <= i < |visited| && s[visited[i]].hash == ids[x];
      assert perm[i] == x;
    }
  }

  /** The counters read through the iterated values are the bag of all counters. */
  lemma IteratedCounters(s: Slots, m: Contents, ids: seq<Hash>, c: seq<nat>)
    requires Lists(s, m) && Mapped(m, ids) && |c| == |ids|
    ensures forall q :: 0 <= q < |s| ==> s[q].value.data <= |c|
    ensures multiset(Iterated(s, c)) == multiset(c)
  {
    var visited := MapIter.ValuedSlots(s);
    ValuesNameCounters(s, m, ids);
    MapIter.ValuedSlotsCarry(s);
    MapIter.VisitsContents(s, m);
    hide Lists, Mapped, MapIter.VisitsKeysOnce;
    IterationPicksEachOnce(s, m, ids, visited);
    var perm := IndicesAt(s, visited);
    assert forall i :: 0 <= i < |visited| ==> perm[i] < |c|;
    PickedOnce(c, perm);
  }

  /** A newline ends the words before it, so a line can be counted on its own. */
  lemma LineEnds(line: Text, rest: Text)
    ensures Words(line + ([NEWLINE] + rest)) == Words(line) + Words(rest)
  {
    SpaceSeparates([], line, NEWLINE, rest);
    assert line + [NEWLINE] + rest == line + ([NEWLINE] + rest);
  }

  /** The whole program on a stream, for any number of places. It stops if and only if some word hashes to
      zero. Otherwise its report is right for the hashes of the words; and it is right for the words
      themselves if and only if no two of them share a hash. */
  method WordFrequencies(stream: Text, places: nat, hashOf: Text -> Hash) returns (r: Outcome)
    ensures r.Stopped? <==> !AllNonzero(Words(stream), hashOf)
    ensures r.Report? ==> IsReport(HashesOf(Words(stream), hashOf), places, r)
    ensures r.Report? ==> (IsReport(Words(stream), places, r) <==> Keys.NoSharedHash(Vocabulary(Words(stream)), hashOf))
  {
    var table := new RM.Map(32);
    var counter := new Counter(table, hashOf);
    var ok := counter.CountStream(stream);
    if !ok {
      return Stopped;
    }
    r := counter.MakeReport(places);
    assert [] + HashesOf(Words(stream), hashOf) == HashesOf(Words(stream), hashOf);
    ReportOnWordsIff(Words(stream), hashOf, places, r);
  }

  // ---------------------------------------------------------------- two words counted as one

  /** The byte with this value, modulo 256, bit by bit. */
  function ByteOf(c: int): bv8 {
    if c <= 0 then 0 else 2 * ByteOf(c / 2) + (if c % 2 == 1 then 1 else 0)
  }

  function BytesOf(text: Text): (bytes: Fnv.Bytes)
    ensures |bytes| == |text| && forall i :: 0 <= i < |text| ==> bytes[i] == ByteOf(text[i])
  {
    seq(|text|, i requires 0 <= i < |text| => ByteOf(text[i]))
  }

  /** The hash the program uses. */
  function TextHash(text: Text): Hash {
    Keys.StrHash(BytesOf(text))
  }

  /** "L0Cc" and "pAad" */
  const FIRST_WORD: Text := [76, 48, 67, 99]
  const SECOND_WORD: Text := [112, 65, 97, 100]

  lemma TwoWords()
    ensures Words(FIRST_WORD + [32] + SECOND_WORD) == [FIRST_WORD, SECOND_WORD]
  {
    WordThenRest(SECOND_WORD, [], []);
    assert SECOND_WORD + [] + [] == SECOND_WORD;
    WordThenRest(FIRST_WORD, [32], SECOND_WORD);
    NoWords();
  }

  lemma SomeBytes()
    ensures ByteOf(76) == 76 && ByteOf(48) == 48 && ByteOf(67) == 67 && ByteOf(99) == 99
    ensures ByteOf(112) == 112 && ByteOf(65) == 65 && ByteOf(97) == 97 && ByteOf(100) == 100
  {
    assert ByteOf(3) == 3 && ByteOf(4) == 4 && ByteOf(6) == 6 && ByteOf(7) == 7;
    assert ByteOf(9) == 9 && ByteOf(12) == 12 && ByteOf(14) == 14 && ByteOf(16) == 16;
    assert ByteOf(19) == 19 && ByteOf(24) == 24 && ByteOf(25) == 25 && ByteOf(28) == 28;
    assert ByteOf(32) == 32 && ByteOf(33) == 33 && ByteOf(38) == 38;
    assert ByteOf(48) == 48 && ByteOf(49) == 49 && ByteOf(50) == 50 && ByteOf(56) == 56;
  }

  lemma TwoWordsBytes()
    ensures BytesOf(FIRST_WORD) == [76, 48, 67, 99] && BytesOf(SECOND_WORD) == [112, 65, 97, 100]
  {
    SomeBytes();
    hide ByteOf, BytesOf;
  }

  lemma TwoWordsShareAHash()
    ensures TextHash(FIRST_WORD) == TextHash(SECOND_WORD) != 0
  {
    TwoWordsBytes();
    hide BytesOf, Fnv.HashOfStr;
    Fnv.SomeKeysShareAHash(true);
    Fnv.HashOfFirstKey(true);
  }

  /** On the stream "L0Cc pAad" the program sees one word, and its report is wrong. */
  method TwoWordsAreOne() returns (r: Outcome)
    ensures r.Report? && r.wordsSeen == 1 && !IsReport([FIRST_WORD, SECOND_WORD], 5, r)
  {
    TwoWords();
    TwoWordsShareAHash();
    OneHash(FIRST_WORD, SECOND_WORD, TextHash);
    hide *;
    r := WordFrequencies(FIRST_WORD + [32] + SECOND_WORD, 5, TextHash);
    ReportCounts(HashesOf([FIRST_WORD, SECOND_WORD], TextHash), 5, r);
  }

  lemma OneHash(k: Text, l: Text, hashOf: Text -> Hash)
    requires k != l && hashOf(k) == hashOf(l) != 0
    ensures AllNonzero([k, l], hashOf) && !Keys.NoSharedHash(Vocabulary([k, l]), hashOf)
    ensures |Vocabulary(HashesOf([k, l], hashOf))| == 1
  {
    var words, h := [k, l], hashOf(k);
    assert words[0] == k && words[1] == l;
    assert k in Vocabulary(words) && l in Vocabulary(words);
    assert HashesOf(words, hashOf) == [h, h] && Vocabulary([h, h]) == {h};
  }

  lemma ReportCounts(tokens: seq<Hash>, places: nat, r: Outcome)
    requires IsReport(tokens, places, r)
    ensures r.wordsSeen == |Vocabulary(tokens)|
  {
  }
}
