/** The uniform per-project capacity: the number of students divided by the
    number of projects, rounded up. */
module Capacity {

  /** Floor division of `n` by `p`, plus one when the division leaves a
      remainder. Both operands are non-negative, so Dafny's `/` and `%` agree
      with Python's `//` and `%` here. */
  function Ceiling(n: nat, p: nat): (cap: nat)
    requires p > 0
    ensures cap * p >= n
    ensures n > 0 ==> (cap - 1) * p < n
    ensures n == 0 ==> cap == 0
  {
    var q := n / p;
    var cap := if n % p != 0 then q + 1 else q;
    assert n == q * p + n % p;
    assert cap * p == q * p + (if n % p != 0 then p else 0);
    assert (cap - 1) * p == cap * p - p;
    cap
  }

  /** `Ceiling(n, p)` is the least capacity under which `p` projects can seat
      `n` students. */
  lemma CeilingIsLeast(n: nat, p: nat, c: nat)
    requires p > 0
    requires c * p >= n
    ensures c >= Ceiling(n, p)
  {
    var cap := Ceiling(n, p);
    if n > 0 {
      var d := c - (cap - 1);
      assert d * p == c * p - (cap - 1) * p;
      assert d * p > 0;
      assert d > 0;
    }
  }
}
