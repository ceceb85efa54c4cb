/** Blocks of consecutive addresses as sets. */
module Counting {

  ghost predicate InBlock(d: int, n: nat, q: int) {
    d <= q < d + n
  }

  /** The n addresses from d on. */
  ghost function Block(d: int, n: nat): set<int> {
    set q {:trigger InBlock(d, n, q)} | d <= q < d + n && InBlock(d, n, q)
  }

  lemma BlockSize(d: int, n: nat)
    ensures |Block(d, n)| == n
    ensures forall q :: q in Block(d, n) <==> d <= q < d + n
  {
    assert forall q :: InBlock(d, n, q) <==> d <= q < d + n;
    if n == 0 {
      assert Block(d, 0) == {};
    } else {
      BlockSize(d, n - 1);
      assert InBlock(d, n, d + n - 1);
      assert Block(d, n) == Block(d, n - 1) + {d + n - 1} by {
        forall q | q in Block(d, n - 1) ensures q in Block(d, n) { assert InBlock(d, n, q); }
        forall q | q in Block(d, n) && q != d + n - 1 ensures q in Block(d, n - 1) { assert InBlock(d, n - 1, q); }
      }
    }
  }

  lemma SubsetSize(a: set<int>, b: set<int>)
    requires a <= b
    ensures |a| <= |b|
  {
    assert b == a + (b - a);
  }

  /** Addresses of [lo, hi) outside the block [d, d + n) leave room for it. */
  lemma Pack(P: set<int>, d: int, n: nat, lo: int, hi: int)
    requires lo <= d && d + n <= hi
    requires forall p :: p in P ==> lo <= p < hi && !(d <= p < d + n)
    ensures |P| + n <= hi - lo
  {
    BlockSize(d, n);
    BlockSize(lo, hi - lo);
    assert P !! Block(d, n);
    SubsetSize(P + Block(d, n), Block(lo, hi - lo));
  }
}
