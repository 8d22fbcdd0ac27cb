/** Positions and their residues: facts about `k % n` for a variable modulus. */
module Residues {

  lemma MulAtLeast(n: int, d: int)
    requires n > 0
    ensures d >= 1 ==> n * d >= n
    ensures d <= -1 ==> n * d <= -n
  {
  }

  lemma ModOf(q: int, s: nat, n: nat)
    requires s < n && n * q + s >= 0
    ensures (n * q + s) % n == s && (n * q + s) / n == q
  {
    var x := n * q + s;
    assert n * (q - x / n) == x % n - s;
    MulAtLeast(n, q - x / n);
  }

  lemma NextLap(a: nat, n: nat)
    requires n > 0
    ensures (a + n) % n == a % n
  {
    assert a + n == n * (a / n + 1) + a % n;
    ModOf(a / n + 1, a % n, n);
  }

  lemma SameSlot(a: nat, b: nat, n: nat)
    requires n > 0 && a <= b < a + n && a % n == b % n
    ensures a == b
  {
    assert b - a == n * (b / n - a / n);
    MulAtLeast(n, b / n - a / n);
  }

  /** Every residue is taken by some position of a window of `n` consecutive positions. */
  lemma WindowCovers(lo: nat, n: nat, s: nat) returns (j: nat)
    requires s < n
    ensures lo <= j < lo + n && j % n == s
  {
    var q, r := lo / n, lo % n;
    j := if s >= r then lo + (s - r) else lo + (s + n - r);
    if s >= r {
      assert j == n * q + s;
      ModOf(q, s, n);
    } else {
      assert j == n * (q + 1) + s;
      ModOf(q + 1, s, n);
    }
  }
}
