/** From hashes to keys. The map compares hashes only, never keys (src/datastruct/map.c), so a map over
    keys is a map over hashes exactly as long as no two keys in use share a hash. */
module Keys {
  import Fnv
  import opened Sequences
  import opened Table
  import HM = HashMap

  datatype KeyOp<K> = Set(key: K, v: Handle, allocOk: bool) | Get(key: K) | Delete(key: K, allocOk: bool)

  function HashedOp<K>(op: KeyOp<K>, hashOf: K -> Hash): HM.Op {
    match op
    case Set(k, v, allocOk) => HM.Set(hashOf(k), v, allocOk)
    case Get(k) => HM.Get(hashOf(k))
    case Delete(k, allocOk) => HM.Delete(hashOf(k), allocOk)
  }

  function Hashed<K>(ops: seq<KeyOp<K>>, hashOf: K -> Hash): (r: seq<HM.Op>)
    ensures |r| == |ops|
  {
    if |ops| == 0 then [] else [HashedOp(ops[0], hashOf)] + Hashed(ops[1..], hashOf)
  }

  function KeyValue<K>(km: map<K, Handle>, k: K): Handle {
    if k in km then km[k] else NULL_HANDLE
  }

  /** What the header documents, over keys. */
  function KeyExpected<K>(km: map<K, Handle>, op: KeyOp<K>, reply: HM.Reply): map<K, Handle> {
    match op
    case Set(k, v, _) => if reply == HM.Done(true) then km[k := v] else km
    case Get(_) => km
    case Delete(k, _) => km - {k}
  }

  predicate KeyGetsAnswer<K>(km: map<K, Handle>, ops: seq<KeyOp<K>>, replies: seq<HM.Reply>)
    requires |replies| == |ops|
    decreases |ops|
  {
    |ops| == 0
    || ((ops[0].Get? ==> replies[0] == HM.Value(KeyValue(km, ops[0].key)))
        && KeyGetsAnswer(KeyExpected(km, ops[0], replies[0]), ops[1..], replies[1..]))
  }

  /** No two of these keys share a hash. */
  predicate NoSharedHash<K>(keys: set<K>, hashOf: K -> Hash) {
    forall k, l :: k in keys && l in keys && hashOf(k) == hashOf(l) ==> k == l
  }

  /** The map over hashes answers each of these keys as the map over keys does. */
  predicate Lifts<K>(m: Contents, km: map<K, Handle>, keys: set<K>, hashOf: K -> Hash) {
    forall k :: k in keys ==> ValueIn(m, hashOf(k)) == KeyValue(km, k)
  }

  lemma LiftsStep<K>(m: Contents, km: map<K, Handle>, keys: set<K>, hashOf: K -> Hash, op: KeyOp<K>, reply: HM.Reply)
    requires NoSharedHash(keys, hashOf) && Lifts(m, km, keys, hashOf) && op.key in keys
    ensures Lifts(HM.Expected(m, HashedOp(op, hashOf), reply), KeyExpected(km, op, reply), keys, hashOf)
  {
    assert forall k :: k in keys && hashOf(k) == hashOf(op.key) ==> k == op.key;
  }

  /** A run that is right over hashes is right over keys, when no two keys in use share a hash. */
  lemma {:induction false} RunLifts<K>(m: Contents, km: map<K, Handle>, keys: set<K>, hashOf: K -> Hash,
                                       ops: seq<KeyOp<K>>, replies: seq<HM.Reply>)
    requires NoSharedHash(keys, hashOf) && Lifts(m, km, keys, hashOf)
    requires forall i :: 0 <= i < |ops| ==> ops[i].key in keys
    requires |replies| == |ops| && HM.GetsAnswer(m, Hashed(ops, hashOf), replies)
    ensures KeyGetsAnswer(km, ops, replies)
    decreases |ops|
  {
    if |ops| > 0 {
      var op, reply := ops[0], replies[0];
      LiftsStep(m, km, keys, hashOf, op, reply);
      assert Hashed(ops, hashOf)[1..] == Hashed(ops[1..], hashOf);
      RunLifts(HM.Expected(m, HashedOp(op, hashOf), reply), KeyExpected(km, op, reply), keys, hashOf,
               ops[1..], replies[1..]);
    }
  }

  lemma HashedCons<K>(op: KeyOp<K>, ops: seq<KeyOp<K>>, hashOf: K -> Hash)
    ensures Hashed([op] + ops, hashOf) == [HashedOp(op, hashOf)] + Hashed(ops, hashOf)
  {
    assert ([op] + ops)[1..] == ops;
  }

  /** The run that tells two keys apart: set both, and get the first. */
  function TellApart<K>(k: K, l: K, v: Handle, w: Handle): seq<KeyOp<K>> {
    [Set(k, v, true), Set(l, w, true), Get(k)]
  }

  lemma HashedTellApart<K>(k: K, l: K, v: Handle, w: Handle, hashOf: K -> Hash)
    ensures Hashed(TellApart(k, l, v, w), hashOf) ==
            [HM.Set(hashOf(k), v, true), HM.Set(hashOf(l), w, true), HM.Get(hashOf(k))]
  {
    HashedCons(Set(k, v, true), [Set(l, w, true), Get(k)], hashOf);
    HashedCons(Set(l, w, true), [Get(k)], hashOf);
    HashedCons(Get(k), [], hashOf);
    assert TellApart(k, l, v, w) == [Set(k, v, true)] + ([Set(l, w, true)] + ([Get(k)] + []));
  }

  /** Setting one hash twice in a new map is safe, and a get answers the second value. */
  lemma SetTwiceGetsSecond(n: nat, h: Hash, v: Handle, w: Handle)
    requires n >= 4 && h != 0 && v.data != 0 && w.data != 0
    ensures var ops := [HM.Set(h, v, true), HM.Set(h, w, true), HM.Get(h)];
            && HM.Replies(HM.Created(n), n, ops) == [HM.Done(true), HM.Done(true), HM.Value(w)]
            && HM.AllSafe(HM.Created(n), n, ops)
  {
    var st0, pos := HM.Created(n), Home(h, n);
    var st1 := HM.State(st0.slots[pos := Entry(h, v)], 1);
    var st2 := HM.State(st0.slots[pos := Entry(h, w)], 1);
    assert st1.slots[Next(pos, n)].hash == 0 && st2.slots[Next(pos, n)].hash == 0;
    assert st1.slots[pos := Entry(h, w)] == st2.slots;
    LookupAt(st0.slots, h, pos);
    LookupAt(st1.slots, h, pos);
    LookupAt(st2.slots, h, pos);
    hide HM.Inv, HM.Balanced, Represents, HM.Replies, HM.AllSafe;
    HM.TraceTells([st0, st1, st2, st2], n, [HM.Set(h, v, true), HM.Set(h, w, true), HM.Get(h)],
                  [HM.Done(true), HM.Done(true), HM.Value(w)]);
  }

  lemma WrongAnswer<K>(k: K, l: K, v: Handle, w: Handle)
    requires k != l && v != w
    ensures !KeyGetsAnswer(map[], TellApart(k, l, v, w), [HM.Done(true), HM.Done(true), HM.Value(w)])
  {
    var ops, replies := TellApart(k, l, v, w), [HM.Done(true), HM.Done(true), HM.Value(w)];
    var km := map[k := v][l := w];
    assert !KeyGetsAnswer(km, [Get(k)], [HM.Value(w)]);
    assert replies[1..] == [HM.Done(true), HM.Value(w)] && ops[1..] == [Set(l, w, true), Get(k)];
    assert replies[1..][1..] == [HM.Value(w)] && ops[1..][1..] == [Get(k)];
    assert KeyExpected(map[], ops[0], replies[0]) == map[k := v] && KeyExpected(map[k := v], ops[1], replies[1]) == km;
    assert !KeyGetsAnswer(map[k := v], ops[1..], replies[1..]);
  }

  /** Any two keys that share a nonzero hash are one key to the map: setting the second changes what the
      first one answers, in a run that is safe over hashes. */
  lemma SharedHashConflates<K>(n: nat, k: K, l: K, hashOf: K -> Hash, v: Handle, w: Handle)
    requires n >= 4 && k != l && hashOf(k) == hashOf(l) != 0
    requires v.data != 0 && w.data != 0 && v != w
    ensures var ops := TellApart(k, l, v, w);
            && HM.AllSafe(HM.Created(n), n, Hashed(ops, hashOf))
            && HM.Replies(HM.Created(n), n, Hashed(ops, hashOf)) == [HM.Done(true), HM.Done(true), HM.Value(w)]
            && !KeyGetsAnswer(map[], ops, [HM.Done(true), HM.Done(true), HM.Value(w)])
  {
    HashedTellApart(k, l, v, w, hashOf);
    SetTwiceGetsSecond(n, hashOf(k), v, w);
    WrongAnswer(k, l, v, w);
  }

  /** On a new map, every run that uses these keys only and is safe over hashes answers as a map over
      keys does. */
  ghost predicate AnswersAsKeys<K(!new)>(n: nat, keys: set<K>, hashOf: K -> Hash)
    requires n >= 4
  {
    forall ops: seq<KeyOp<K>> | UsesOnly(ops, keys) && HM.AllSafe(HM.Created(n), n, Hashed(ops, hashOf)) ::
      KeyGetsAnswer(map[], ops, HM.Replies(HM.Created(n), n, Hashed(ops, hashOf)))
  }

  predicate UsesOnly<K>(ops: seq<KeyOp<K>>, keys: set<K>) {
    forall i :: 0 <= i < |ops| ==> ops[i].key in keys
  }

  /** Keys with nonzero hashes are right for every run if and only if no two of them share a hash. */
  lemma AnswersAsKeysIff<K(!new)>(n: nat, keys: set<K>, hashOf: K -> Hash)
    requires n >= 4 && forall k :: k in keys ==> hashOf(k) != 0
    ensures AnswersAsKeys(n, keys, hashOf) <==> NoSharedHash(keys, hashOf)
  {
    if NoSharedHash(keys, hashOf) {
      forall ops: seq<KeyOp<K>> | UsesOnly(ops, keys) && HM.AllSafe(HM.Created(n), n, Hashed(ops, hashOf))
        ensures KeyGetsAnswer(map[], ops, HM.Replies(HM.Created(n), n, Hashed(ops, hashOf)))
      {
        HM.SafeRunAgrees(HM.Created(n), n, map[], Hashed(ops, hashOf));
        RunLifts(map[], map[], keys, hashOf, ops, HM.Replies(HM.Created(n), n, Hashed(ops, hashOf)));
      }
    } else {
      var k, l :| k in keys && l in keys && hashOf(k) == hashOf(l) && k != l;
      var v, w := Handle(1, 0), Handle(2, 0);
      SharedHashConflates(n, k, l, hashOf, v, w);
      assert UsesOnly(TellApart(k, l, v, w), keys);
    }
  }

  // ---------------------------------------------------------------- keys with which the map goes wrong

  /** The hash of a str, with signed characters. */
  function StrHash(key: Fnv.Bytes): Hash {
    Fnv.HashOfStr(key, true) as int
  }

  /** "L0Cc" and "pAad" share a hash, so a new map does not tell them apart. */
  lemma TwoStrsConflate(v: Handle, w: Handle)
    requires v.data != 0 && w.data != 0 && v != w
    ensures var k: Fnv.Bytes, l: Fnv.Bytes := [76, 48, 67, 99], [112, 65, 97, 100];
            var ops := TellApart(k, l, v, w);
            && HM.Replies(HM.Created(32), 32, Hashed(ops, StrHash)) == [HM.Done(true), HM.Done(true), HM.Value(w)]
            && !KeyGetsAnswer(map[], ops, [HM.Done(true), HM.Done(true), HM.Value(w)])
  {
    var k: Fnv.Bytes, l: Fnv.Bytes := [76, 48, 67, 99], [112, 65, 97, 100];
    Fnv.SomeKeysShareAHash(true);
    Fnv.HashOfFirstKey(true);
    SharedHashConflates(32, k, l, StrHash, v, w);
  }

  /** "03SB[" hashes to zero: a new map answers that it is set, and does not find it. */
  lemma SomeStrIsNotStored(v: Handle)
    requires v.data != 0
    ensures var k: Fnv.Bytes := [48, 51, 83, 66, 91];
            HM.Replies(HM.Created(32), 32, [HM.Set(StrHash(k), v, true), HM.Get(StrHash(k))]) ==
            [HM.Done(true), HM.Value(NULL_HANDLE)]
  {
    Fnv.SomeKeyHashesToZero(true);
    HM.ZeroHashIsNotStored(32, v);
  }

  /** "A" and "a" have the same home in a new map: deleting the first hides the second. */
  lemma DeletingAHidesLowerA(v: Handle, w: Handle)
    requires v.data != 0 && w.data != 0
    ensures var h, k := StrHash([65]), StrHash([97]);
            HM.Replies(HM.Created(32), 32, [HM.Set(h, v, true), HM.Set(k, w, true), HM.Delete(h, true), HM.Get(k)]) ==
            [HM.Done(true), HM.Done(true), HM.Done(true), HM.Value(NULL_HANDLE)]
  {
    Fnv.OneCharHash(65, 0x5076fafa, true);
    Fnv.OneCharHash(97, 0x70772d5a, true);
    HM.DeleteHidesTheOtherIff(32, StrHash([65]), StrHash([97]), v, w);
  }

  /** The 64-bit address with this number. */
  function Address(a: nat): bv64 {
    if a == 0 then 0 else Address(a - 1) + 1
  }

  /** The hash of an address, with signed characters. */
  function PtrHash(a: nat): Hash {
    Fnv.HashOfPtr(Address(a), true) as int
  }

  lemma FirstAddresses()
    ensures Address(0) == 0 && Address(1) == 1 && Address(2) == 2 && Address(3) == 3 && Address(4) == 4
    ensures Address(5) == 5 && Address(6) == 6 && Address(7) == 7 && Address(8) == 8 && Address(9) == 9
    ensures Address(10) == 10 && Address(11) == 11 && Address(12) == 12 && Address(13) == 13
    ensures Address(14) == 14 && Address(15) == 15 && Address(16) == 16 && Address(17) == 17
  {
  }

  lemma UpToSeventeen(a: nat)
    requires a <= 17
    ensures Address(a) <= 17 && (a < 17 ==> Address(a) < 17)
  {
    FirstAddresses();
    hide Address;
  }

  lemma {:induction false} AddressesIncrease(a: nat, b: nat)
    requires a <= b <= 17
    ensures Address(a) <= Address(b) <= 17 && (a < b ==> Address(a) < Address(b))
    decreases b - a
  {
    UpToSeventeen(a);
    if a < b {
      AddressesIncrease(a + 1, b);
    }
  }

  lemma SmallPointers(a: nat, b: nat)
    requires 1 <= a <= b <= 17
    ensures PtrHash(a) != 0 && (a != b ==> PtrHash(a) != PtrHash(b))
  {
    AddressesIncrease(a, b);
    var x, y := Address(a), Address(b);
    assert x as bv8 == y as bv8 ==> x == y;
    Fnv.SmallAddresses(x, y, true);
    hide Fnv.HashOfPtr;
    ToIntInjective(Fnv.HashOfPtr(x, true), 0);
    if a != b {
      ToIntInjective(Fnv.HashOfPtr(x, true), Fnv.HashOfPtr(y, true));
    }
  }

  function OneCharHashes(cs: Fnv.Bytes): (hs: seq<Hash>)
    ensures |hs| == |cs| && forall i :: 0 <= i < |cs| ==> hs[i] == StrHash([cs[i]])
  {
    seq(|cs|, i requires 0 <= i < |cs| => StrHash([cs[i]]))
  }

  lemma ToIntInjective(x: bv32, y: bv32)
    requires x != y
    ensures x as int != y as int
  {
    assert (x as int) as bv32 == x && (y as int) as bv32 == y;
  }

  lemma OneCharStrs(c: bv8, d: bv8)
    ensures StrHash([c]) != 0 && (c != d ==> StrHash([c]) != StrHash([d]))
  {
    hide Fnv.HashOfStr;
    Fnv.OneCharKeys(c, d, true);
    ToIntInjective(Fnv.HashOfStr([c], true), 0);
    if c != d {
      ToIntInjective(Fnv.HashOfStr([c], true), Fnv.HashOfStr([d], true));
    }
  }

  lemma OneCharHashesAreNew(cs: Fnv.Bytes)
    requires NoDuplicates(cs)
    ensures HM.NewKeys(map[], OneCharHashes(cs))
  {
    hide StrHash;
    var hs := OneCharHashes(cs);
    forall i, j | 0 <= i < j < |hs|
      ensures hs[i] != hs[j]
    {
      OneCharStrs(cs[i], cs[j]);
    }
    forall i | 0 <= i < |hs|
      ensures hs[i] != 0
    {
      OneCharStrs(cs[i], cs[i]);
    }
  }

  /** "!" and "a" have the same home in a table of 64 slots. */
  lemma SameHomeInSixtyFour()
    ensures Home(StrHash([33]), 64) == Home(StrHash([97]), 64)
  {
    Fnv.OneCharHash(33, 0x3076c89a, true);
    Fnv.OneCharHash(97, 0x70772d5a, true);
  }

  /** Any seventeen different one-character keys set in a new map are all answered true, and the last one
      is not found; if the sixteen before it include "!" and "a", not all of those are found either. */
  lemma SeventeenthCharIsLost(cs: Fnv.Bytes, last: bv8, v: Handle)
    requires |cs| == 16 && NoDuplicates(cs + [last]) && v.data != 0
    ensures var hs, h := OneCharHashes(cs), StrHash([last]);
            var ops := HM.Sets(hs, v) + [HM.Set(h, v, true)];
            var s := HM.Run(HM.Created(32), 32, ops).slots;
            && HM.Replies(HM.Created(32), 32, ops) == HM.AllDone(16) + [HM.Done(true)]
            && HasEmpty(s) && Lookup(s, h) == NULL_HANDLE
            && (33 in cs && 97 in cs ==> !Agrees(s, HM.KeysOf(hs, v)))
  {
    hide StrHash, HM.Sets, HM.Run, HM.Replies, HM.NewKeys, HM.KeysOf, Lookup, Agrees, Home;
    var hs, h := OneCharHashes(cs), StrHash([last]);
    OneCharHashesAreNew(cs + [last]);
    assert OneCharHashes(cs + [last]) == hs + [h];
    HM.FirstGrowth(32, hs, h, v);
    if 33 in cs && 97 in cs {
      SameHomeInSixtyFour();
      var i :| 0 <= i < 16 && cs[i] == 33;
      var j :| 0 <= j < 16 && cs[j] == 97;
      assert Home(hs[i], 64) == Home(hs[j], 64);
      assert i < j || j < i;
    }
  }
}
