/** The key hash of the map (src/datastruct/map.c): a one-byte key type tag followed by the bytes of
    the key, folded with the 32-bit FNV-1a step written as shifts and additions. A C `char` may be
    signed, so its conversion to 32 bits sign-extends or not; the parameter `signed` says which. */
module Fnv {
  type Bytes = seq<bv8>

  const OFFSET_BASIS: bv32 := 0x811c9dc5
  const TAG_STR: bv8 := 0
  const TAG_PTR: bv8 := 1

  /** The conversion `(uint32_t)c` of a `char`. */
  function Widen(b: bv8, signed: bool): bv32 {
    if signed && b >= 0x80 then 0xffffff00 | (b as bv32) else b as bv32
  }

  function Xor(x: bv32, y: bv32): bv32 {
    x ^ y
  }

  function Sum(x: bv32, x1: bv32, x4: bv32, x7: bv32, x8: bv32, x24: bv32): bv32 {
    x + (x1 + x4 + x7 + x8 + x24)
  }

  /** `hash += (hash << 1) + (hash << 4) + (hash << 7) + (hash << 8) + (hash << 24)` */
  function Mix(x: bv32): bv32 {
    Sum(x, x << 1, x << 4, x << 7, x << 8, x << 24)
  }

  /** One loop body: a character is xored in, then mixed. */
  function Step(hash: bv32, c: bv32): bv32 {
    Mix(Xor(hash, c))
  }

  function HashFrom(hash: bv32, bytes: Bytes, signed: bool): bv32 {
    if |bytes| == 0 then hash
    else Step(HashFrom(hash, bytes[..|bytes| - 1], signed), Widen(bytes[|bytes| - 1], signed))
  }

  /** The `n` low bytes of an address, least significant first. */
  function AddressBytes(key: bv64, n: nat): (r: Bytes)
    ensures |r| == n
  {
    if n == 0 then [] else [(key & 255) as bv8] + AddressBytes(key >> 8, n - 1)
  }

  function HashOfStr(key: Bytes, signed: bool): bv32 {
    HashFrom(OFFSET_BASIS, [TAG_STR] + key, signed)
  }

  function HashOfPtr(key: bv64, signed: bool): bv32 {
    HashFrom(OFFSET_BASIS, [TAG_PTR] + AddressBytes(key, 8), signed)
  }

  lemma HashSnoc(hash: bv32, bytes: Bytes, b: bv8, signed: bool)
    ensures HashFrom(hash, bytes + [b], signed) == Step(HashFrom(hash, bytes, signed), Widen(b, signed))
  {
    assert (bytes + [b])[..|bytes|] == bytes;
  }

  method HashStr(key: Bytes, signed: bool) returns (hash: bv32)
    ensures hash == HashOfStr(key, signed)
  {
    hide Step, HashFrom, Widen;
    hash := OFFSET_BASIS;
    HashOfTag(TAG_STR, signed);
    hash := Step(hash, Widen(TAG_STR, signed));
    assert [TAG_STR] == [TAG_STR] + key[..0];
    var i := 0;
    while i < |key|
      invariant 0 <= i <= |key|
      invariant hash == HashFrom(OFFSET_BASIS, [TAG_STR] + key[..i], signed)
    {
      HashSnoc(OFFSET_BASIS, [TAG_STR] + key[..i], key[i], signed);
      assert [TAG_STR] + key[..i] + [key[i]] == [TAG_STR] + key[..i + 1];
      hash := Step(hash, Widen(key[i], signed));
      i := i + 1;
    }
    assert key[..i] == key;
  }

  lemma HashOfTag(tag: bv8, signed: bool)
    ensures HashFrom(OFFSET_BASIS, [tag], signed) == Step(OFFSET_BASIS, Widen(tag, signed))
  {
    assert [] + [tag] == [tag];
    HashSnoc(OFFSET_BASIS, [], tag, signed);
  }

  lemma LowByteFirst(key: bv64, n: nat)
    requires n > 0
    ensures AddressBytes(key, n) == [(key & 255) as bv8] + AddressBytes(key >> 8, n - 1)
  {
  }

  method HashPtr(key: bv64, signed: bool) returns (hash: bv32)
    ensures hash == HashOfPtr(key, signed)
  {
    hide Step, HashFrom, Widen, AddressBytes;
    hash := OFFSET_BASIS;
    HashOfTag(TAG_PTR, signed);
    hash := Step(hash, Widen(TAG_PTR, signed));
    var keyint := key;
    var i := 0;
    ghost var done: Bytes := [];
    assert [TAG_PTR] == [TAG_PTR] + done;
    while i < 8
      invariant 0 <= i <= 8
      invariant done + AddressBytes(keyint, 8 - i) == AddressBytes(key, 8)
      invariant hash == HashFrom(OFFSET_BASIS, [TAG_PTR] + done, signed)
    {
      var c := (keyint & 255) as bv8;
      LowByteFirst(keyint, 8 - i);
      ghost var rest := AddressBytes(keyint >> 8, 7 - i);
      assert done + ([c] + rest) == (done + [c]) + rest;
      HashSnoc(OFFSET_BASIS, [TAG_PTR] + done, c, signed);
      assert [TAG_PTR] + done + [c] == [TAG_PTR] + (done + [c]);
      keyint := keyint >> 8;
      hash := Step(hash, Widen(c, signed));
      done := done + [c];
      i := i + 1;
    }
    assert done + AddressBytes(keyint, 0) == done;
  }

  // ---------------------------------------------------------------- the step is a multiplication

  function TimesPrime(x: bv32): bv32 {
    x * 0x01000193
  }

  function TimesInverse(x: bv32): bv32 {
    x * 0x359c449b
  }

  lemma ShiftsAreMultiples(x: bv32)
    ensures x << 1 == x * 2 && x << 4 == x * 16 && x << 7 == x * 128
    ensures x << 8 == x * 256 && x << 24 == x * 0x1000000
  {
  }

  lemma SumOfMultiples(x: bv32, x1: bv32, x4: bv32, x7: bv32, x8: bv32, x24: bv32)
    requires x1 == x * 2 && x4 == x * 16 && x7 == x * 128 && x8 == x * 256 && x24 == x * 0x1000000
    ensures Sum(x, x1, x4, x7, x8, x24) == TimesPrime(x)
  {
    assert Sum(x, x * 2, x * 16, x * 128, x * 256, x * 0x1000000) == TimesPrime(x);
  }

  lemma MixMultiplies(x: bv32)
    ensures Mix(x) == TimesPrime(x)
  {
    ShiftsAreMultiples(x);
    SumOfMultiples(x, x << 1, x << 4, x << 7, x << 8, x << 24);
  }

  /** The claim of the source's comment: the step multiplies by 0x01000193 modulo 2^32. */
  lemma StepMultiplies(hash: bv32, c: bv32)
    ensures Step(hash, c) == TimesPrime(Xor(hash, c))
  {
    MixMultiplies(Xor(hash, c));
  }

  // ---------------------------------------------------------------- the step is a bijection

  lemma PrimeThenInverse(x: bv32)
    ensures TimesInverse(TimesPrime(x)) == x
  {
    assert TimesInverse(x * 0x01000193) == x;
  }

  lemma InverseThenPrime(x: bv32)
    ensures TimesPrime(TimesInverse(x)) == x
  {
    assert TimesPrime(x * 0x359c449b) == x;
  }

  lemma XorCancels(x: bv32, y: bv32)
    ensures Xor(Xor(x, y), y) == x
  {
    assert (x ^ y) ^ y == x;
  }

  function Unstep(hash: bv32, c: bv32): bv32 {
    Xor(TimesInverse(hash), c)
  }

  lemma UnstepStep(hash: bv32, c: bv32)
    ensures Unstep(Step(hash, c), c) == hash
  {
    StepMultiplies(hash, c);
    PrimeThenInverse(Xor(hash, c));
    XorCancels(hash, c);
  }

  lemma StepUnstep(hash: bv32, c: bv32)
    ensures Step(Unstep(hash, c), c) == hash
  {
    XorCancels(TimesInverse(hash), c);
    MixMultiplies(TimesInverse(hash));
    InverseThenPrime(hash);
  }

  /** For a fixed character a step is a bijection of the 32-bit states, with multiplier 0x359c449b
      undoing 0x01000193; for a fixed state different bytes lead to different states. */
  lemma StepBijective(hash: bv32, c: bv32)
    ensures Unstep(Step(hash, c), c) == hash && Step(Unstep(hash, c), c) == hash
  {
    UnstepStep(hash, c);
    StepUnstep(hash, c);
  }

  lemma WidenInjective(b: bv8, c: bv8, signed: bool)
    requires b != c
    ensures Widen(b, signed) != Widen(c, signed)
  {
  }

  lemma XorInjective(x: bv32, y: bv32, z: bv32)
    requires y != z
    ensures Xor(x, y) != Xor(x, z)
  {
  }

  lemma StepSeparatesBytes(hash: bv32, y: bv32, z: bv32)
    requires y != z
    ensures Step(hash, y) != Step(hash, z)
  {
    XorInjective(hash, y, z);
    StepMultiplies(hash, y);
    StepMultiplies(hash, z);
    PrimeThenInverse(Xor(hash, y));
    PrimeThenInverse(Xor(hash, z));
  }

  lemma StepSeparatesStates(h: bv32, k: bv32, c: bv32)
    requires h != k
    ensures Step(h, c) != Step(k, c)
  {
    UnstepStep(h, c);
    UnstepStep(k, c);
  }

  // ---------------------------------------------------------------- consequences for whole keys

  /** Two keys of the same length that differ in exactly one byte never share a hash. */
  lemma {:induction false} OneByteApart(hash: bv32, key: Bytes, i: nat, b: bv8, signed: bool)
    requires i < |key| && key[i] != b
    ensures HashFrom(hash, key, signed) != HashFrom(hash, key[i := b], signed)
  {
    hide HashFrom, Step, Widen;
    var n := |key| - 1;
    var other := key[i := b];
    var front, last := key[..n], key[n];
    assert key == front + [last];
    HashSnoc(hash, front, last, signed);
    if i == n {
      assert other == front + [b];
      HashSnoc(hash, front, b, signed);
      WidenInjective(last, b, signed);
      StepSeparatesBytes(HashFrom(hash, front, signed), Widen(last, signed), Widen(b, signed));
    } else {
      var changed := front[i := b];
      assert other == changed + [last];
      HashSnoc(hash, changed, last, signed);
      OneByteApart(hash, front, i, b, signed);
      StepSeparatesStates(HashFrom(hash, front, signed), HashFrom(hash, changed, signed), Widen(last, signed));
    }
  }

  /** The tag does its job: a str never shares its hash with a pointer whose bytes are the same. */
  lemma StrNeverMeetsPtr(key: bv64, signed: bool)
    ensures HashOfStr(AddressBytes(key, 8), signed) != HashOfPtr(key, signed)
  {
    var bytes := AddressBytes(key, 8);
    assert ([TAG_STR] + bytes)[0 := TAG_PTR] == [TAG_PTR] + bytes;
    OneByteApart(OFFSET_BASIS, [TAG_STR] + bytes, 0, TAG_PTR, signed);
  }

  /** FNV-1a as the draft defines it: bytes are unsigned, and the step is a multiplication. */
  function Fnv1a(bytes: Bytes): bv32 {
    if |bytes| == 0 then OFFSET_BASIS
    else TimesPrime(Xor(Fnv1a(bytes[..|bytes| - 1]), bytes[|bytes| - 1] as bv32))
  }

  /** The fold is FNV-1a of the tagged key whenever `char` is unsigned or all bytes are below 128. */
  lemma {:induction false} MatchesFnv1a(bytes: Bytes, signed: bool)
    requires !signed || forall i :: 0 <= i < |bytes| ==> bytes[i] < 0x80
    ensures HashFrom(OFFSET_BASIS, bytes, signed) == Fnv1a(bytes)
  {
    if |bytes| > 0 {
      var n := |bytes| - 1;
      MatchesFnv1a(bytes[..n], signed);
      StepMultiplies(HashFrom(OFFSET_BASIS, bytes[..n], signed), bytes[n] as bv32);
    }
  }

  lemma StepDeparts(h: bv32, b: bv8, signed: bool)
    ensures Step(h, Widen(b, signed)) == TimesPrime(Xor(h, b as bv32)) <==> !signed || b < 0x80
  {
    var y, z := Widen(b, signed), b as bv32;
    assert y == z <==> !signed || b < 0x80;
    StepMultiplies(h, z);
    if y != z {
      StepSeparatesBytes(h, y, z);
    }
  }

  /** Where the first departure happens: after a prefix of bytes below 128, the next byte keeps the
      hash equal to FNV-1a if and only if `char` is unsigned or that byte is below 128 too. */
  lemma FirstDeparture(prefix: Bytes, b: bv8, signed: bool)
    requires forall i :: 0 <= i < |prefix| ==> prefix[i] < 0x80
    ensures HashFrom(OFFSET_BASIS, prefix + [b], signed) == Fnv1a(prefix + [b]) <==> !signed || b < 0x80
  {
    var bytes := prefix + [b];
    var h := HashFrom(OFFSET_BASIS, prefix, signed);
    HashSnoc(OFFSET_BASIS, prefix, b, signed);
    assert Fnv1a(bytes) == TimesPrime(Xor(h, b as bv32)) by {
      MatchesFnv1a(prefix, signed);
      assert bytes[..|bytes| - 1] == prefix;
    }
    StepDeparts(h, b, signed);
  }

  // ---------------------------------------------------------------- the hash of a str, for every key

  /** One more character: its 32-bit value, sign-extended or not, is xored in, and the result multiplied by the
      prime. The empty key has the state after the tag. */
  lemma StrOneMore(key: Bytes, b: bv8, signed: bool)
    ensures HashOfStr([], signed) == 0x050c5d1f
    ensures HashOfStr(key + [b], signed) ==
            TimesPrime(Xor(HashOfStr(key, signed), if signed && b >= 0x80 then 0xffffff00 | (b as bv32) else b as bv32))
  {
    StateAfterTag(signed);
    assert [TAG_STR] + [] == [TAG_STR] && [TAG_STR] + (key + [b]) == ([TAG_STR] + key) + [b];
    HashSnoc(OFFSET_BASIS, [TAG_STR] + key, b, signed);
    StepMultiplies(HashOfStr(key, signed), Widen(b, signed));
  }

  /** Changing one byte of a key, of any length and at any place, changes its hash. */
  lemma StrOneByteApart(key: Bytes, i: nat, b: bv8, signed: bool)
    requires i < |key| && key[i] != b
    ensures HashOfStr(key, signed) != HashOfStr(key[i := b], signed)
  {
    hide HashFrom;
    assert [TAG_STR] + key[i := b] == ([TAG_STR] + key)[i + 1 := b];
    OneByteApart(OFFSET_BASIS, [TAG_STR] + key, i + 1, b, signed);
  }

  /** The hash of a key is FNV-1a of a zero byte and the key, when `char` is unsigned or all bytes are below 128;
      after such a key, one more byte keeps it so if and only if `char` is unsigned or that byte is below 128. */
  lemma StrMatchesFnv1a(key: Bytes, b: bv8, signed: bool)
    requires !signed || forall i :: 0 <= i < |key| ==> key[i] < 0x80
    ensures HashOfStr(key, signed) == Fnv1a([0] + key)
    ensures HashOfStr(key + [b], signed) == Fnv1a([0] + (key + [b])) <==> !signed || b < 0x80
  {
    hide HashFrom, Fnv1a, Widen;
    var bytes := [TAG_STR] + key;
    assert [TAG_STR] + (key + [b]) == bytes + [b];
    MatchesFnv1a(bytes, signed);
    if signed {
      FirstDeparture(bytes, b, signed);
    } else {
      MatchesFnv1a(bytes + [b], signed);
    }
  }

  /** A key with exactly one byte of 128 or more never has the hash it would have with unsigned characters. */
  lemma OneHighByteShows(key: Bytes, i: nat)
    requires i < |key| && key[i] >= 0x80 && forall j :: 0 <= j < |key| && j != i ==> key[j] < 0x80
    ensures HashOfStr(key, true) != HashOfStr(key, false)
  {
    hide HashFrom;
    OneHighByte(OFFSET_BASIS, [TAG_STR] + key, i + 1);
  }

  lemma {:induction false} OneHighByte(hash: bv32, bytes: Bytes, i: nat)
    requires i < |bytes| && bytes[i] >= 0x80 && forall j :: 0 <= j < |bytes| && j != i ==> bytes[j] < 0x80
    ensures HashFrom(hash, bytes, true) != HashFrom(hash, bytes, false)
  {
    var n := |bytes| - 1;
    var front, last := bytes[..n], bytes[n];
    assert bytes == front + [last];
    HashSnoc(hash, front, last, true);
    HashSnoc(hash, front, last, false);
    if i == n {
      SignDoesNotMatter(hash, front);
      hide HashFrom, Step;
      StepSeparatesBytes(HashFrom(hash, front, true), Widen(last, true), Widen(last, false));
    } else {
      OneHighByte(hash, front, i);
      hide HashFrom, Step;
      StepSeparatesStates(HashFrom(hash, front, true), HashFrom(hash, front, false), Widen(last, true));
    }
  }

  lemma {:induction false} SignDoesNotMatter(hash: bv32, bytes: Bytes)
    requires forall i :: 0 <= i < |bytes| ==> bytes[i] < 0x80
    ensures HashFrom(hash, bytes, true) == HashFrom(hash, bytes, false)
  {
    if |bytes| > 0 {
      SignDoesNotMatter(hash, bytes[..|bytes| - 1]);
    }
  }

  // ---------------------------------------------------------------- the hash of a pointer, for every address

  function LowByte(key: bv64): bv8 {
    (key & 255) as bv8
  }

  function Down(key: bv64): bv64 {
    key >> 8
  }

  lemma LowThenDown(key: bv64, n: nat)
    requires n > 0
    ensures AddressBytes(key, n) == [LowByte(key)] + AddressBytes(Down(key), n - 1)
  {
  }

  lemma DownsAre(key: bv64)
    ensures Down(key) == key >> 8 && Down(key >> 8) == key >> 16 && Down(key >> 16) == key >> 24
    ensures Down(key >> 24) == key >> 32 && Down(key >> 32) == key >> 40 && Down(key >> 40) == key >> 48
    ensures Down(key >> 48) == key >> 56 && Down(key >> 56) == 0
  {
  }

  lemma FourBytes(key: bv64, k1: bv64, k2: bv64, k3: bv64, k4: bv64, n: nat)
    requires n >= 4 && Down(key) == k1 && Down(k1) == k2 && Down(k2) == k3 && Down(k3) == k4
    ensures AddressBytes(key, n) ==
            [LowByte(key), LowByte(k1), LowByte(k2), LowByte(k3)] + AddressBytes(k4, n - 4)
  {
    hide AddressBytes, Down, LowByte;
    LowThenDown(key, n);
    LowThenDown(k1, n - 1);
    LowThenDown(k2, n - 2);
    LowThenDown(k3, n - 3);
  }

  /** The bytes hashed are those of the address, all eight, the least significant one first. */
  lemma AddressBytesAre(key: bv64)
    ensures AddressBytes(key, 8) ==
            [LowByte(key), LowByte(key >> 8), LowByte(key >> 16), LowByte(key >> 24),
             LowByte(key >> 32), LowByte(key >> 40), LowByte(key >> 48), LowByte(key >> 56)]
    ensures forall k: bv64 :: LowByte(k) == (k & 255) as bv8
  {
    DownsAre(key);
    FourBytes(key, key >> 8, key >> 16, key >> 24, key >> 32, 8);
    FourBytes(key >> 32, key >> 40, key >> 48, key >> 56, 0, 4);
    assert AddressBytes(0, 0) == [];
    hide AddressBytes, Down;
  }

  lemma BytesDetermine(a: bv64, b: bv64)
    requires LowByte(a) == LowByte(b) && LowByte(a >> 8) == LowByte(b >> 8)
    requires LowByte(a >> 16) == LowByte(b >> 16) && LowByte(a >> 24) == LowByte(b >> 24)
    requires LowByte(a >> 32) == LowByte(b >> 32) && LowByte(a >> 40) == LowByte(b >> 40)
    requires LowByte(a >> 48) == LowByte(b >> 48) && LowByte(a >> 56) == LowByte(b >> 56)
    ensures a == b
  {
  }

  /** Different addresses have different bytes. */
  lemma AddressBytesInjective(a: bv64, b: bv64)
    requires AddressBytes(a, 8) == AddressBytes(b, 8)
    ensures a == b
  {
    var x, y := AddressBytes(a, 8), AddressBytes(b, 8);
    AddressBytesAre(a);
    AddressBytesAre(b);
    hide AddressBytes, LowByte;
    assert x[0] == y[0] && x[1] == y[1] && x[2] == y[2] && x[3] == y[3];
    assert x[4] == y[4] && x[5] == y[5] && x[6] == y[6] && x[7] == y[7];
    BytesDetermine(a, b);
  }

  /** Addresses that differ in exactly one of their eight bytes never share a hash. */
  lemma PtrOneByteApart(a: bv64, b: bv64, i: nat, signed: bool)
    requires i < 8 && a != b
    requires forall j :: 0 <= j < 8 && j != i ==> AddressBytes(a, 8)[j] == AddressBytes(b, 8)[j]
    ensures HashOfPtr(a, signed) != HashOfPtr(b, signed)
  {
    var x, y := AddressBytes(a, 8), AddressBytes(b, 8);
    hide HashFrom, AddressBytes;
    assert y == x[i := y[i]];
    if y[i] == x[i] {
      AddressBytesInjective(a, b);
    } else {
      assert [TAG_PTR] + y == ([TAG_PTR] + x)[i + 1 := y[i]];
      OneByteApart(OFFSET_BASIS, [TAG_PTR] + x, i + 1, y[i], signed);
    }
  }

  /** The hash of an address is the fold over its eight bytes, from the state after the tag; it is FNV-1a of a
      one byte and these, when `char` is unsigned or all eight are below 128. */
  lemma PtrHashIs(key: bv64, signed: bool)
    ensures HashOfPtr(key, signed) == HashFrom(0x040c5b8c, AddressBytes(key, 8), signed)
    ensures !signed || (forall i :: 0 <= i < 8 ==> AddressBytes(key, 8)[i] < 0x80) ==>
              HashOfPtr(key, signed) == Fnv1a([1] + AddressBytes(key, 8))
  {
    var bytes := AddressBytes(key, 8);
    StateAfterPtrTag(signed);
    HashFromState(OFFSET_BASIS, [TAG_PTR], bytes, signed);
    hide HashFrom, AddressBytes, Fnv1a;
    if !signed || forall i :: 0 <= i < 8 ==> bytes[i] < 0x80 {
      MatchesFnv1a([TAG_PTR] + bytes, signed);
    }
  }

  /** The fold over two lists of bytes is the fold over the second from where the first one ends. */
  lemma {:induction false} HashFromState(hash: bv32, first: Bytes, second: Bytes, signed: bool)
    ensures HashFrom(hash, [], signed) == hash
    ensures HashFrom(hash, first + second, signed) == HashFrom(HashFrom(hash, first, signed), second, signed)
    decreases |second|
  {
    var state := HashFrom(hash, first, signed);
    if |second| == 0 {
      assert first + second == first;
    } else {
      var front, last := second[..|second| - 1], second[|second| - 1];
      HashFromState(hash, first, front, signed);
      hide Step, Widen;
      assert first + second == (first + front) + [last] && second == front + [last];
      HashSnoc(hash, first + front, last, signed);
      HashSnoc(state, front, last, signed);
    }
  }

  // ---------------------------------------------------------------- some hashes

  lemma AppendAny(k: Bytes, i: nat, c: bv32, before: bv32, after: bv32, signed: bool)
    requires i < |k| && Widen(k[i], signed) == c
    requires HashFrom(OFFSET_BASIS, k[..i], signed) == before && Step(before, c) == after
    ensures HashFrom(OFFSET_BASIS, k[..i + 1], signed) == after
  {
    HashSnoc(OFFSET_BASIS, k[..i], k[i], signed);
    assert k[..i] + [k[i]] == k[..i + 1];
  }

  /** The two bytes 0xc3 and 0xa9, which are one character in UTF-8. */
  lemma HashOfHighBytes(signed: bool)
    ensures HashOfStr([0xc3, 0xa9], signed) == if signed then 0x59bddb47 else 0x03866147
  {
    var k: Bytes := [0, 0xc3, 0xa9];
    Append(k, 0, 0x811c9dc5, 0x050c5d1f, signed);
    if signed {
      AppendAny(k, 1, 0xffffffc3, 0x050c5d1f, 0xe9896054, signed);
      AppendAny(k, 2, 0xffffffa9, 0xe9896054, 0x59bddb47, signed);
    } else {
      AppendAny(k, 1, 0xc3, 0x050c5d1f, 0xce77c154, signed);
      AppendAny(k, 2, 0xa9, 0xce77c154, 0x03866147, signed);
    }
    assert k[..3] == k == [TAG_STR] + [0xc3, 0xa9];
  }

  // ---------------------------------------------------------------- hash zero and shared hashes

  /** A key hashes to zero exactly when its last byte equals the state reached before it. */
  lemma ZeroHash(hash: bv32, bytes: Bytes, b: bv8, signed: bool)
    ensures HashFrom(hash, bytes + [b], signed) == 0 <==> HashFrom(hash, bytes, signed) == Widen(b, signed)
  {
    var h, c := HashFrom(hash, bytes, signed), Widen(b, signed);
    HashSnoc(hash, bytes, b, signed);
    StepMultiplies(h, c);
    PrimeThenInverse(Xor(h, c));
    XorZero(h, c);
    TimesZero();
  }

  lemma XorZero(x: bv32, y: bv32)
    ensures Xor(x, y) == 0 <==> x == y
  {
    assert x ^ y == 0 <==> x == y;
  }

  lemma TimesZero()
    ensures TimesPrime(0) == 0 && TimesInverse(0) == 0
  {
  }

  lemma Append(k: Bytes, i: nat, before: bv32, after: bv32, signed: bool)
    requires i < |k| && k[i] < 0x80
    requires HashFrom(OFFSET_BASIS, k[..i], signed) == before && Step(before, k[i] as bv32) == after
    ensures HashFrom(OFFSET_BASIS, k[..i + 1], signed) == after
  {
    HashSnoc(OFFSET_BASIS, k[..i], k[i], signed);
    assert k[..i] + [k[i]] == k[..i + 1];
  }

  /** The five-character key "03SB[" hashes to zero, the value that marks an empty slot. */
  lemma SomeKeyHashesToZero(signed: bool)
    ensures HashOfStr([48, 51, 83, 66, 91], signed) == 0x0
  {
    var k: Bytes := [0, 48, 51, 83, 66, 91];
    Append(k, 0, 0x811c9dc5, 0x050c5d1f, signed);
    Append(k, 1, 0x050c5d1f, 0x2176b0fd, signed);
    Append(k, 2, 0x2176b0fd, 0x7bd8544a, signed);
    Append(k, 3, 0x7bd8544a, 0x0e8c635b, signed);
    Append(k, 4, 0x0e8c635b, 0x0000005b, signed);
    Append(k, 5, 0x0000005b, 0x00000000, signed);
    assert k[..6] == k == [TAG_STR] + [48, 51, 83, 66, 91];
  }

  // ---------------------------------------------------------------- one-character keys

  /** The state after the tag of a str. */
  lemma StateAfterTag(signed: bool)
    ensures HashFrom(OFFSET_BASIS, [TAG_STR], signed) == 0x050c5d1f
  {
    Append([TAG_STR], 0, 0x811c9dc5, 0x050c5d1f, signed);
    assert [TAG_STR][..1] == [TAG_STR];
  }

  lemma OneCharHash(c: bv8, hash: bv32, signed: bool)
    requires c < 0x80 && Step(0x050c5d1f, c as bv32) == hash
    ensures HashOfStr([c], signed) == hash
  {
    StateAfterTag(signed);
    HashSnoc(OFFSET_BASIS, [TAG_STR], c, signed);
  }

  lemma WidenIsNotState(c: bv8, signed: bool)
    ensures Widen(c, signed) != 0x050c5d1f
  {
  }

  /** One-character keys have nonzero hashes, all different. */
  lemma OneCharKeys(c: bv8, d: bv8, signed: bool)
    ensures HashOfStr([c], signed) != 0
    ensures c != d ==> HashOfStr([c], signed) != HashOfStr([d], signed)
  {
    StateAfterTag(signed);
    WidenIsNotState(c, signed);
    ZeroHash(OFFSET_BASIS, [TAG_STR], c, signed);
    assert [TAG_STR, c] == [TAG_STR] + [c] && [TAG_STR, c][1 := d] == [TAG_STR] + [d];
    if c != d {
      OneByteApart(OFFSET_BASIS, [TAG_STR, c], 1, d, signed);
    }
  }

  // ---------------------------------------------------------------- small addresses

  function Zeros(n: nat): (z: Bytes)
    ensures |z| == n && forall i :: 0 <= i < n ==> z[i] == 0
  {
    seq(n, i => 0)
  }

  lemma {:induction false} AddressOfZero(n: nat)
    ensures AddressBytes(0, n) == Zeros(n)
  {
    if n > 0 {
      LowByteFirst(0, n);
      ShiftOut(0);
      AddressOfZero(n - 1);
      assert Zeros(n) == [0] + Zeros(n - 1);
    }
  }

  lemma ShiftOut(key: bv64)
    requires key < 256
    ensures key >> 8 == 0 && key & 255 == key
  {
  }

  lemma SmallAddress(key: bv64)
    requires key < 256
    ensures AddressBytes(key, 8) == [key as bv8] + Zeros(7)
  {
    LowByteFirst(key, 8);
    ShiftOut(key);
    AddressOfZero(7);
  }

  lemma {:induction false} ZerosKeepNonzero(hash: bv32, bytes: Bytes, n: nat, signed: bool)
    requires HashFrom(hash, bytes, signed) != 0
    ensures HashFrom(hash, bytes + Zeros(n), signed) != 0
  {
    hide HashFrom, Step;
    if n == 0 {
      assert bytes + Zeros(0) == bytes;
    } else {
      ZerosKeepNonzero(hash, bytes, n - 1, signed);
      ZeroHash(hash, bytes + Zeros(n - 1), 0, signed);
      assert bytes + Zeros(n) == bytes + Zeros(n - 1) + [0];
    }
  }

  lemma StateAfterPtrTag(signed: bool)
    ensures HashFrom(OFFSET_BASIS, [TAG_PTR], signed) == 0x040c5b8c
  {
    Append([TAG_PTR], 0, 0x811c9dc5, 0x040c5b8c, signed);
    assert [TAG_PTR][..1] == [TAG_PTR];
  }

  lemma WidenIsNotPtrState(c: bv8, signed: bool)
    ensures Widen(c, signed) != 0x040c5b8c
  {
  }

  /** Addresses below 256 have nonzero hashes, all different. */
  lemma SmallAddresses(a: bv64, b: bv64, signed: bool)
    requires a < 256 && b < 256
    ensures HashOfPtr(a, signed) != 0 && (a as bv8 != b as bv8 ==> HashOfPtr(a, signed) != HashOfPtr(b, signed))
  {
    var x, y := a as bv8, b as bv8;
    SmallAddress(a);
    SmallAddress(b);
    StateAfterPtrTag(signed);
    WidenIsNotPtrState(x, signed);
    ZeroHash(OFFSET_BASIS, [TAG_PTR], x, signed);
    hide HashFrom, Step, AddressBytes, Widen;
    ZerosKeepNonzero(OFFSET_BASIS, [TAG_PTR] + [x], 7, signed);
    var bytes := [TAG_PTR] + ([x] + Zeros(7));
    assert bytes == ([TAG_PTR] + [x]) + Zeros(7) && bytes[1 := y] == [TAG_PTR] + ([y] + Zeros(7));
    if x != y {
      OneByteApart(OFFSET_BASIS, bytes, 1, y, signed);
    }
  }

  // ---------------------------------------------------------------- two keys with one hash

  lemma HashOfFirstKey(signed: bool)
    ensures HashOfStr([76, 48, 67, 99], signed) == 0x5cfc33b1
  {
    var k: Bytes := [0, 76, 48, 67, 99];
    Append(k, 0, 0x811c9dc5, 0x050c5d1f, signed);
    Append(k, 1, 0x050c5d1f, 0x4576e9a9, signed);
    Append(k, 2, 0x4576e9a9, 0xf331bbdb, signed);
    Append(k, 3, 0xf331bbdb, 0x6f4a5048, signed);
    Append(k, 4, 0x6f4a5048, 0x5cfc33b1, signed);
    assert k[..5] == k == [TAG_STR] + [76, 48, 67, 99];
  }

  lemma HashOfSecondKey(signed: bool)
    ensures HashOfStr([112, 65, 97, 100], signed) == 0x5cfc33b1
  {
    var k: Bytes := [0, 112, 65, 97, 100];
    Append(k, 0, 0x811c9dc5, 0x050c5d1f, signed);
    Append(k, 1, 0x050c5d1f, 0x617715bd, signed);
    Append(k, 2, 0x617715bd, 0x6a779bb4, signed);
    Append(k, 3, 0x6a779bb4, 0x6f4a504f, signed);
    Append(k, 4, 0x6f4a504f, 0x5cfc33b1, signed);
    assert k[..5] == k == [TAG_STR] + [112, 65, 97, 100];
  }

  /** The four-character keys "L0Cc" and "pAad" share a hash. */
  lemma SomeKeysShareAHash(signed: bool)
    ensures HashOfStr([76, 48, 67, 99], signed) == HashOfStr([112, 65, 97, 100], signed)
  {
    HashOfFirstKey(signed);
    HashOfSecondKey(signed);
  }
}
