/** The growing string buffer of src/datastruct/str.c. A growth reallocates to twice the capacity. `growOk`
    says whether the reallocations of a call succeed, and `moves` whether they move the block to another
    address rather than extend it in place. */
module StrBuf {
  import opened Doubling
  import opened Strings

  function Max(a: nat, b: nat): nat {
    if a < b then b else a
  }

  /** The growing loop ends: the bytes fit, or a reallocation fails, or there is a capacity to double. */
  predicate Grows(capacity: nat, need: nat, growOk: bool) {
    need <= capacity || !growOk || capacity > 0
  }

  /** With reallocations succeeding, some number of doublings makes room if and only if `Grows` says so. */
  lemma GrowingEndsIff(capacity: nat, need: nat)
    ensures (exists k: nat :: need <= TimesPowerOfTwo(capacity, k)) <==> Grows(capacity, need, true)
  {
    if capacity == 0 {
      forall k: nat
        ensures TimesPowerOfTwo(capacity, k) == 0
      {
        ZeroStaysZero(k);
      }
      assert TimesPowerOfTwo(capacity, 0) == 0;
    } else {
      DoublingPasses(capacity, need);
      assert need <= TimesPowerOfTwo(capacity, need);
    }
  }

  lemma {:induction false} ZeroStaysZero(k: nat)
    ensures TimesPowerOfTwo(0, k) == 0
  {
    if k > 0 {
      ZeroStaysZero(k - 1);
    }
  }

  lemma {:induction false} DoublingPasses(capacity: nat, k: nat)
    requires capacity > 0
    ensures TimesPowerOfTwo(capacity, k) > k
  {
    if k > 0 {
      DoublingPasses(capacity, k - 1);
    }
  }

  class Buffer {
    /** The bytes of the block; null once a reallocation has failed. `data.Length` is the capacity. */
    var data: array?<int>
    var length: nat
    ghost var initial: nat
    /** Bytes that growths have moved to another address. */
    ghost var moved: nat
    /** The longest contents so far. */
    ghost var peak: nat

    ghost predicate Valid()
      reads this, data
    {
      data != null ==>
        && length <= data.Length && length <= peak
        && IsDoubling(data.Length, initial)
        && moved + initial <= data.Length
        && (data.Length == initial || data.Length <= 2 * peak)
    }

    ghost function Contents(): Text
      reads this, data
      requires data != null && length <= data.Length
    {
      data[..length]
    }

    ghost function Block(): set<object>
      reads this
    {
      if data == null then {} else {data}
    }

    /** `strbuf_create` with memory available */
    constructor (size: nat)
      ensures Valid() && data != null && fresh(data) && data.Length == size && Contents() == []
      ensures initial == size && moved == 0 && peak == 0
    {
      data := new int[size](_ => 0);
      length := 0;
      initial, moved, peak := size, 0, 0;
    }

    /** `strbuf_reset` */
    method Reset()
      requires Valid()
      modifies this`length
      ensures Valid() && length == 0 && data == old(data)
    {
      length := 0;
    }

    /** `grow_strbuf`: realloc keeps the old block's bytes; a failure leaves no block at all. */
    method Grow(growOk: bool, moves: bool) returns (ok: bool)
      requires data != null && length <= data.Length
      modifies this`data, this`moved
      ensures ok == growOk
      ensures !ok ==> data == null
      ensures ok ==> data != null && fresh(data) && data.Length == 2 * old(data.Length)
      ensures ok ==> data[..old(data.Length)] == old(data[..])
      ensures ok ==> moved == old(moved) + if moves then old(data.Length) else 0
    {
      if !growOk {
        data := null;
        return false;
      }
      var oldData := data;
      var newData := new int[2 * oldData.Length];
      forall i | 0 <= i < oldData.Length {
        newData[i] := oldData[i];
      }
      moved := moved + if moves then oldData.Length else 0;
      data := newData;
      assert data[..oldData.Length] == oldData[..];
      return true;
    }

    /** The growing loop: double until `need` bytes fit. A buffer of capacity zero would be doubled for
        ever (`GrowingEndsIff`). */
    method Reserve(need: nat, growOk: bool, moves: bool) returns (ok: bool)
      requires Valid() && data != null && Grows(data.Length, need, growOk) && need <= peak + 1
      modifies this`data, this`moved
      ensures Valid()
      ensures ok <==> need <= old(data.Length) || growOk
      ensures if ok then data != null && need <= data.Length && Contents() == old(Contents()) else data == null
      ensures ok ==> data.Length >= old(data.Length)
      ensures need <= old(data.Length) ==> data == old(data) && moved == old(moved)
      ensures ok && need > old(data.Length) ==> fresh(data)
    {
      while need > data.Length
        invariant data != null && Valid() && Grows(data.Length, need, growOk)
        invariant Contents() == old(Contents()) && data.Length >= old(data.Length)
        invariant (data == old(data) && moved == old(moved)) || (fresh(data) && need > old(data.Length) && growOk)
        decreases need - data.Length
      {
        ghost var before := data[..];
        ok := Grow(growOk, moves);
        if !ok {
          return false;
        }
        assert data[..length] == before[..length];
      }
      return true;
    }

    /** `memcpy` to the end of the contents. */
    method CopyIn(source: array<int>, n: nat)
      requires data != null && n <= source.Length && length + n <= data.Length && (source == data ==> n <= length)
      modifies data
      ensures data[..length + n] == old(data[..length]) + old(source[..n])
    {
      forall i | 0 <= i < n {
        data[length + i] := source[i];
      }
    }

    /** `do_strbuf_concatenate`: append the first `n` bytes of the block `source`. When `source` is the
        buffer's own block and a growth moves it, the bytes are read from the released block: `stale`. */
    method Concatenate(source: array<int>, n: nat, growOk: bool, moves: bool) returns (ok: bool, ghost stale: bool)
      requires Valid() && n <= source.Length
      requires data != null ==> Grows(data.Length, length + n, growOk) && (source == data ==> n <= length)
      modifies this, Block()
      ensures Valid() && initial == old(initial)
      ensures ok <==> old(data) != null && (old(length + n <= data.Length) || growOk)
      ensures stale <==> ok && moves && source == old(data) && old(length + n > data.Length)
      ensures ok ==> data != null && length == old(length) + n && peak == Max(old(peak), length)
      ensures ok ==> data.Length >= old(data.Length)
      ensures ok && !stale ==> Contents() == old(Contents()) + old(source[..n])
      ensures !ok ==> data == null
      ensures old(data) != null && old(length + n <= data.Length) ==> data == old(data) && moved == old(moved)
      ensures data == old(data) || data == null || fresh(data)
    {
      stale := false;
      if data == null {
        return false, false;
      }
      ghost var bytes := source[..n];
      ghost var contents := Contents();
      peak := Max(peak, length + n);
      ok := Reserve(length + n, growOk, moves);
      if !ok {
        return false, false;
      }
      stale := moves && source == old(data) && data != old(data);
      CopyIn(source, n);
      length := length + n;
      assert Contents() == contents + bytes;
    }

    /** `strbuf_concatenate_str` and its like: the source is memory outside the buffer. */
    method ConcatenateText(text: Text, growOk: bool, moves: bool) returns (ok: bool)
      requires Valid() && (data != null ==> Grows(data.Length, length + |text|, growOk))
      modifies this, Block()
      ensures Valid() && initial == old(initial)
      ensures ok <==> old(data) != null && (old(length) + |text| <= old(data.Length) || growOk)
      ensures ok ==> data != null && length <= data.Length && Contents() == old(Contents()) + text
      ensures ok ==> peak == Max(old(peak), length)
      ensures ok ==> data.Length >= old(data.Length)
      ensures !ok ==> data == null
      ensures old(data) != null && old(length) + |text| <= old(data.Length) ==> data == old(data)
      ensures data == old(data) || data == null || fresh(data)
    {
      var source := new int[|text|](i requires 0 <= i < |text| => text[i]);
      ghost var stale;
      assert source[..|text|] == text;
      ok, stale := Concatenate(source, |text|, growOk, moves);
    }

    /** `vsnprintf` at the end of the contents: the text and a terminator. */
    method WriteFormatted(text: Text)
      requires data != null && length + |text| + 1 <= data.Length
      modifies data
      ensures data[..length + |text|] == old(data[..length]) + text
    {
      forall i | 0 <= i < |text| {
        data[length + i] := text[i];
      }
      data[length + |text|] := 0;
    }

    /** `strbuf_concatenate_printf`: the formatted text and its terminator are written, then only the
        text is counted. */
    method ConcatenateFormatted(text: Text, growOk: bool, moves: bool) returns (ok: bool)
      requires Valid() && (data != null ==> Grows(data.Length, length + |text| + 1, growOk))
      modifies this, Block()
      ensures Valid() && initial == old(initial)
      ensures ok <==> old(data) != null && (old(length) + |text| + 1 <= old(data.Length) || growOk)
      ensures ok ==> data != null && length <= data.Length && Contents() == old(Contents()) + text
      ensures ok ==> peak == Max(old(peak), length)
      ensures ok ==> data.Length >= old(data.Length)
      ensures !ok ==> data == null
      ensures data == old(data) || data == null || fresh(data)
    {
      if data == null {
        return false;
      }
      peak := Max(peak, length + |text|);
      ok := Reserve(length + |text| + 1, growOk, moves);
      if !ok {
        return false;
      }
      WriteFormatted(text);
      length := length + |text|;
    }

    /** `strbuf_concatenate_strbuf`, which passes the address of the source's block before any growth.
        Appending a buffer to itself reads released memory if and only if it has to grow and the growth
        moves the block. */
    method ConcatenateBuffer(source: Buffer, growOk: bool, moves: bool) returns (ok: bool, ghost stale: bool)
      requires Valid() && source.Valid() && (source.data != null && data == source.data ==> source == this)
      requires data != null && source.data != null ==> Grows(data.Length, length + source.length, growOk)
      modifies this, Block()
      ensures Valid()
      ensures ok <==> && old(data) != null && old(source.data) != null
                      && (old(length + source.length <= data.Length) || growOk)
      ensures old(source.data) == null ==> data == old(data)
      ensures stale <==> ok && moves && source == this && old(data != null && 2 * length > data.Length)
      ensures ok ==> old(data) != null && old(source.data) != null && data != null
      ensures ok && !stale ==> Contents() == old(Contents()) + old(source.Contents())
    {
      if source.data == null {
        return false, false;
      }
      ok, stale := Concatenate(source.data, source.length, growOk, moves);
    }

    /** `strbuf_duplicate` with memory available: same contents, same capacity, and never a growth. */
    method Duplicate() returns (copy: Buffer)
      requires Valid() && data != null
      ensures copy.Valid() && fresh(copy) && copy.data != null && fresh(copy.data)
      ensures copy.Contents() == Contents() && copy.data.Length == data.Length && copy.moved == 0
    {
      copy := new Buffer(data.Length);
      var ok;
      ghost var stale;
      ok, stale := copy.Concatenate(data, length, true, true);
      assert data[..length] == Contents();
    }
  }

  // ---------------------------------------------------------------- runs of appends and resets

  datatype BufOp = Append(text: Text, moves: bool) | Format(text: Text, moves: bool) | Clear

  function After(contents: Text, op: BufOp): Text {
    if op.Clear? then [] else contents + op.text
  }

  /** Everything appended since the last reset. */
  function Replay(contents: Text, ops: seq<BufOp>): Text
    decreases |ops|
  {
    if |ops| == 0 then contents else Replay(After(contents, ops[0]), ops[1..])
  }

  /** The longest contents of a run. */
  function Peak(contents: Text, ops: seq<BufOp>): nat
    decreases |ops|
  {
    if |ops| == 0 then |contents| else Max(|contents|, Peak(After(contents, ops[0]), ops[1..]))
  }

  /** One more operation: an append adds its text at the end of the contents, a reset empties them; and the longest
      contents are at least as long as these. */
  lemma {:induction false} ReplaySnoc(contents: Text, ops: seq<BufOp>, op: BufOp)
    ensures Replay(contents, ops + [op]) == if op.Clear? then [] else Replay(contents, ops) + op.text
    ensures Peak(contents, ops + [op]) == Max(Peak(contents, ops), |Replay(contents, ops + [op])|)
    ensures Replay(contents, []) == contents && Peak(contents, []) == |contents|
    decreases |ops|
  {
    if |ops| == 0 {
      assert ops + [op] == [op];
      assert Replay(contents, [op]) == Replay(After(contents, op), []);
    } else {
      assert (ops + [op])[1..] == ops[1..] + [op];
      ReplaySnoc(After(contents, ops[0]), ops[1..], op);
    }
  }

  method Apply(buf: Buffer, op: BufOp)
    requires buf.Valid() && buf.data != null && buf.initial >= 1
    modifies buf, buf.data
    ensures buf.Valid() && buf.data != null && (buf.data == old(buf.data) || fresh(buf.data))
    ensures buf.Contents() == After(old(buf.Contents()), op) && buf.initial == old(buf.initial)
    ensures buf.peak == Max(old(buf.peak), |buf.Contents()|)
  {
    var ok;
    match op {
      case Append(text, moves) =>
        ok := buf.ConcatenateText(text, true, moves);
      case Format(text, moves) =>
        ok := buf.ConcatenateFormatted(text, true, moves);
      case Clear =>
        buf.Reset();
    }
  }

  /** Any run with successful reallocations: contents are what was appended since the last reset, the
      capacity is the initial size times a power of two and at most twice the longest contents once it
      has grown, and all growths together moved fewer bytes than the final capacity. */
  method Perform(buf: Buffer, ops: seq<BufOp>)
    requires buf.Valid() && buf.data != null && buf.initial >= 1
    modifies buf, buf.data
    ensures buf.Valid() && buf.data != null && (buf.data == old(buf.data) || fresh(buf.data))
    ensures buf.Contents() == Replay(old(buf.Contents()), ops)
    ensures buf.initial == old(buf.initial) && IsDoubling(buf.data.Length, buf.initial)
    ensures buf.peak == Max(old(buf.peak), Peak(old(buf.Contents()), ops))
    ensures buf.data.Length <= Max(buf.initial, 2 * buf.peak)
    ensures buf.moved < buf.data.Length
    decreases |ops|
  {
    if |ops| > 0 {
      Apply(buf, ops[0]);
      Perform(buf, ops[1..]);
    }
  }

  /** A full buffer of two characters appended to itself, where the growth moves the block. */
  method SelfAppendIsStale() returns (buf: Buffer, ok: bool, ghost stale: bool)
    ensures ok && stale
  {
    buf := new Buffer(2);
    ok := buf.ConcatenateText([97, 98], true, true);
    ok, stale := buf.ConcatenateBuffer(buf, true, true);
  }
}
