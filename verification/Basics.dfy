/** Shared value types: optional values, octets and 64-bit sequence numbers. */
module Basics {

  datatype Option<+T> = None | Some(value: T)

  type byte = x: int | 0 <= x < 256

  /** Number of values of a `uint64_t`; also the size of the Sequence and TxSequence spaces. */
  const M64: nat := 0x1_0000_0000_0000_0000

  /** `uint64_t`, hence also `lp::Sequence`. */
  type u64 = x: int | 0 <= x < 0x1_0000_0000_0000_0000

  /** The 64-bit number that stands for the unbounded counter value n: n less its full laps. */
  function Key(n: nat): u64 {
    if n < M64 then n else Key(n - M64)
  }

  lemma {:induction false} KeyIsRemainder(n: nat)
    ensures Key(n) == n % M64
  {
    if n >= M64 {
      KeyIsRemainder(n - M64);
    }
  }

  /** Wrap-around arithmetic relative to a base: within one lap the 64-bit number of `n` is the
      offset of `n` added to the number of the base, minus one lap if that overflows. */
  lemma {:induction false} KeyFrom(base: nat, n: nat)
    requires base <= n <= base + M64
    ensures Key(n) == if Key(base) + (n - base) < M64 then Key(base) + (n - base)
                      else Key(base) + (n - base) - M64
  {
    if base >= M64 {
      KeyFrom(base - M64, n - M64);
    }
  }

  /** Two counter values less than one lap apart have different 64-bit numbers. */
  lemma KeyInjective(m: nat, n: nat)
    requires m < n < m + M64
    ensures Key(m) != Key(n)
  {
    KeyFrom(m, n);
  }

  predicate NoDuplicates<T(==)>(s: seq<T>) {
    forall i, j :: 0 <= i < j < |s| ==> s[i] != s[j]
  }

  function Min(a: int, b: int): int {
    if a <= b then a else b
  }

  /** The elements of a sequence. */
  function Elements<T>(s: seq<T>): set<T> {
    set x | x in s
  }

  /** At most n distinct numbers are below n, and n of them are all of them. */
  lemma {:induction false} Covers(all: set<nat>, n: nat)
    requires forall x :: x in all ==> x < n
    ensures |all| <= n
    ensures |all| == n <==> forall x :: 0 <= x < n ==> x in all
  {
    if n > 0 {
      Covers(all - {n - 1}, n - 1);
      if n - 1 in all {
        assert |all - {n - 1}| == |all| - 1;
        assert forall x :: 0 <= x < n - 1 && x in all ==> x in all - {n - 1};
      } else {
        assert all - {n - 1} == all;
      }
    }
  }
}
