/** The growth policy of the container (vector.cpp, ensure_capacity) and the
    capacity and relocation cost it produces over a run of appends. */
module Growth {

  /** n is one of 1, 2, 4, 8, ... */
  predicate IsPow2(n: nat)
    decreases n
  {
    n == 1 || (n >= 2 && n % 2 == 0 && IsPow2(n / 2))
  }

  /** The capacity ensure_capacity asks reserve for when the buffer is full:
      1 for an empty buffer, otherwise twice the current capacity. */
  function Grow(capacity: nat): (r: nat)
    ensures capacity == 0 ==> r == 1
    ensures capacity > 0 ==> r == 2 * capacity
    ensures r > capacity
    ensures capacity == 0 || IsPow2(capacity) ==> IsPow2(r)
  {
    if capacity == 0 then 1 else capacity * 2
  }

  /** The capacity of a container that started empty (capacity 0) after n
      appends, no other operation intervening: each append grows first exactly
      when the size before it equals the capacity. */
  function CapacityAfterPushes(n: nat): nat
  {
    if n == 0 then 0
    else
      var c := CapacityAfterPushes(n - 1);
      if n - 1 == c then Grow(c) else c
  }

  /** The number of elements relocated (moved or copied into a new buffer)
      over those same n appends: a growth relocates every live element. */
  function MovesAfterPushes(n: nat): nat
  {
    if n == 0 then 0
    else
      var c := CapacityAfterPushes(n - 1);
      MovesAfterPushes(n - 1) + (if n - 1 == c then n - 1 else 0)
  }

  /** The capacities observed follow 0, 1, 2, 4, 8, ...: after n >= 1 appends
      the capacity is the least power of two that is at least n. */
  lemma {:induction false} CapacityAfterPushesIsLeastPow2(n: nat)
    ensures n == 0 ==> CapacityAfterPushes(n) == 0
    ensures n >= 1 ==> IsPow2(CapacityAfterPushes(n))
    ensures n >= 1 ==> n <= CapacityAfterPushes(n) < 2 * n
  {
    if n >= 2 {
      CapacityAfterPushesIsLeastPow2(n - 1);
    }
  }

  /** The capacity never shrinks under appends. */
  lemma {:induction false} CapacityAfterPushesMonotone(m: nat, n: nat)
    requires m <= n
    ensures CapacityAfterPushes(m) <= CapacityAfterPushes(n)
  {
    if m < n {
      CapacityAfterPushesMonotone(m, n - 1);
    }
  }

  /** Amortised constant-time append: n appends relocate exactly
      capacity - 1 elements in total, which is fewer than 2 * n. */
  lemma {:induction false} MovesAfterPushesBound(n: nat)
    ensures n >= 1 ==> MovesAfterPushes(n) + 1 == CapacityAfterPushes(n)
    ensures MovesAfterPushes(n) < 2 * n || n == 0
  {
    if n >= 1 {
      CapacityAfterPushesIsLeastPow2(n);
      if n >= 2 {
        MovesAfterPushesBound(n - 1);
        CapacityAfterPushesIsLeastPow2(n - 1);
      }
    }
  }
}
