/** Advancing an index round a ring of `n` slots. */
module Modulo {

  lemma RowOrder(q: nat, r: nat, q': nat, n: nat)
    requires q < q' && r < n
    ensures q * n + r < q' * n
  {
    assert q' * n == q * n + n + (q' - q - 1) * n;
  }

  lemma ModIs(x: nat, n: nat, q: nat, r: nat)
    requires x == q * n + r && r < n
    ensures x % n == r
  {
    var q', r' := x / n, x % n;
    assert x == q' * n + r';
    if q < q' {
      RowOrder(q, r, q', n);
    } else if q' < q {
      RowOrder(q', r', q, n);
    }
  }

  /** Wrapping an index that is at most one turn ahead. */
  lemma Wrap(x: nat, n: nat)
    requires x < 2 * n
    ensures x % n == if x < n then x else x - n
  {
    if x < n {
      ModIs(x, n, 0, x);
    } else {
      ModIs(x, n, 1, x - n);
    }
  }

  /** The slot reached after `k` steps round the ring. */
  function Steps(k: nat, n: nat): (r: nat)
    requires n > 0
    ensures r < n
  {
    if k == 0 then 0
    else var r := Steps(k - 1, n); if r + 1 < n then r + 1 else 0
  }

  /** Stepping is counting modulo `n`; `k / n` turns have been completed. */
  lemma {:induction false} StepsIsMod(k: nat, n: nat)
    requires n > 0
    ensures Steps(k, n) == k % n
  {
    if k == 0 {
      ModIs(0, n, 0, 0);
    } else {
      StepsIsMod(k - 1, n);
      var q, r := (k - 1) / n, (k - 1) % n;
      assert k - 1 == q * n + r;
      if r + 1 < n {
        ModIs(k, n, q, r + 1);
      } else {
        assert k == (q + 1) * n;
        ModIs(k, n, q + 1, 0);
      }
    }
  }

  lemma {:induction false} StepsSmall(k: nat, n: nat)
    requires k < n
    ensures Steps(k, n) == k
  {
    if k > 0 {
      StepsSmall(k - 1, n);
    }
  }
}
