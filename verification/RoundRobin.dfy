/** Plain round robin: the cyclic index of src/routing/strategies/roundRobin.js. */
module RoundRobin {
  import opened Arithmetic

  class RoundRobinStrategy {
    var index: nat

    constructor ()
      ensures index == 0
    {
      index := 0;
    }

    method Select(n: nat) returns (k: nat)
      requires n > 0
      modifies this
      ensures k == RoundRobinPick(old(index), n) < n && index == RoundRobinNext(old(index), n)
      ensures k == old(index) % n && index == (old(index) + 1) % n
    {
      WrapIsRemainder(index, n);
      WrapIsRemainder(index + 1, n);
      k := index % n;
      index := (index + 1) % n;
    }
  }

  function RoundRobinPick(index: nat, n: nat): nat
    requires n > 0
  {
    Wrap(index, n)
  }

  function RoundRobinNext(index: nat, n: nat): nat
    requires n > 0
  {
    Wrap(index + 1, n)
  }

  /** From any index, also one at or past the length of a shrunken pool, the k-th selection on a pool of n is the
      member k places on, cyclically. So any n in a row select every member once. */
  lemma {:induction false} RoundRobinCycles(index: nat, n: nat, k: nat)
    requires n > 0
    ensures RoundRobinPick(RoundRobinAfter(index, n, k), n) == (index + k) % n
  {
    var now := RoundRobinAfter(index, n, k);
    WrapIsRemainder(now, n);
    if k > 0 {
      var before := RoundRobinAfter(index, n, k - 1);
      RoundRobinCycles(index, n, k - 1);
      WrapIsRemainder(before, n);
      WrapIsRemainder(before + 1, n);
      NextRemainder(before, index + k - 1, n);
    }
  }

  lemma NextRemainder(a: nat, b: nat, n: nat)
    requires n > 0 && a % n == b % n
    ensures ((a + 1) % n) % n == (b + 1) % n
  {
    var r := a % n;
    var q := if r + 1 == n then 1 else 0;
    Distribute(n, a / n, q);
    Distribute(n, b / n, q);
    RemainderUnique(a + 1, n, a / n + q, r + 1 - n * q);
    RemainderUnique(b + 1, n, b / n + q, r + 1 - n * q);
    RemainderUnique((a + 1) % n, n, 0, (a + 1) % n);
  }

  /** The field `index` after k selections on a pool of n. */
  ghost function RoundRobinAfter(index: nat, n: nat, k: nat): nat
    requires n > 0
  {
    if k == 0 then index else RoundRobinNext(RoundRobinAfter(index, n, k - 1), n)
  }
}
