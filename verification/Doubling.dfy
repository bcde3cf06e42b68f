/** Sizes that start at an initial size and are only ever doubled, or halved back. */
module Doubling {
  /** `n` is the initial size times a power of two. */
  predicate IsDoubling(n: nat, initial: nat) {
    n == initial || (n > initial && n % 2 == 0 && IsDoubling(n / 2, initial))
  }

  lemma DoublingIsPositive(n: nat, initial: nat)
    requires 1 <= initial && IsDoubling(n, initial)
    ensures n >= initial && (n > initial ==> n % 2 == 0 && IsDoubling(n / 2, initial))
  {
  }

  lemma DoubleIsDoubling(n: nat, initial: nat)
    requires 1 <= initial && IsDoubling(n, initial)
    ensures n >= initial && IsDoubling(2 * n, initial)
  {
    var d := 2 * n;
    assert n >= initial && d % 2 == 0 && d / 2 == n;
  }

  lemma {:induction false} DoublingOfEven(n: nat, initial: nat)
    requires IsDoubling(n, initial) && n > initial && initial % 2 == 0
    ensures n % 4 == 0
  {
    if n / 2 != initial {
      DoublingOfEven(n / 2, initial);
    }
    DoubleOfEven(n / 2);
    assert n == 2 * (n / 2);
  }

  lemma DoubleOfEven(h: nat)
    requires h % 2 == 0
    ensures 2 * h % 4 == 0
  {
  }

  /** Sizes are the initial size times a power of two. */
  function TimesPowerOfTwo(initial: nat, k: nat): nat {
    if k == 0 then initial else 2 * TimesPowerOfTwo(initial, k - 1)
  }

  lemma {:induction false} DoublingIsPowerOfTwo(n: nat, initial: nat) returns (k: nat)
    requires IsDoubling(n, initial)
    ensures n == TimesPowerOfTwo(initial, k)
  {
    if n == initial {
      k := 0;
    } else {
      k := DoublingIsPowerOfTwo(n / 2, initial);
      k := k + 1;
    }
  }
}
