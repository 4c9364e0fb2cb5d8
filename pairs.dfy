/** The nested loop `for i in range(n): for j in range(i + 1, n)` that
    collects, pair by pair, what `emit(i, j)` yields, independently of what
    is collected. */
module Pairs {

  /** What the inner loop has collected for `i` once it has visited the
      partners `i + 1` to `j - 1`. */
  function RowOf<T>(n: nat, i: nat, j: nat, emit: (nat, nat) -> seq<T>): seq<T>
    requires i < j <= n
    decreases j
  {
    if j == i + 1 then [] else RowOf(n, i, j - 1, emit) + emit(i, j - 1)
  }

  /** What the outer loop has collected once it has visited the first `i`
      indices. */
  function RowsOf<T>(n: nat, i: nat, emit: (nat, nat) -> seq<T>): seq<T>
    requires i <= n
  {
    if i == 0 then [] else RowsOf(n, i - 1, emit) + RowOf(n, i - 1, n, emit)
  }

  /** Visiting partner `j` appends what the pair `(i, j)` yields. */
  lemma RowStep<T>(n: nat, i: nat, j: nat, emit: (nat, nat) -> seq<T>)
    requires i < j < n
    ensures RowOf(n, i, j + 1, emit) == RowOf(n, i, j, emit) + emit(i, j)
  {
  }

  /** Every item of row `i` was yielded by a later partner `k`. */
  lemma {:induction false} RowSource<T>(n: nat, i: nat, j: nat, emit: (nat, nat) -> seq<T>, c: T) returns (k: nat)
    requires i < j <= n && c in RowOf(n, i, j, emit)
    ensures i < k < j && c in emit(i, k)
    decreases j
  {
    var before := RowOf(n, i, j - 1, emit);
    assert RowOf(n, i, j, emit) == before + emit(i, j - 1);
    if c in before {
      k := RowSource(n, i, j - 1, emit, c);
    } else {
      k := j - 1;
    }
  }

  /** What a later partner `k` yields is in row `i`. */
  lemma {:induction false} RowHas<T>(n: nat, i: nat, j: nat, k: nat, emit: (nat, nat) -> seq<T>, c: T)
    requires i < k < j <= n && c in emit(i, k)
    ensures c in RowOf(n, i, j, emit)
    decreases j
  {
    if k < j - 1 {
      RowHas(n, i, j - 1, k, emit, c);
    }
  }

  /** Every item collected so far was yielded by a pair `a < b`, with `a`
      among the indices visited. */
  lemma {:induction false} RowsSource<T>(n: nat, i: nat, emit: (nat, nat) -> seq<T>, c: T) returns (a: nat, b: nat)
    requires i <= n && c in RowsOf(n, i, emit)
    ensures a < i && a < b < n && c in emit(a, b)
  {
    var before, row := RowsOf(n, i - 1, emit), RowOf(n, i - 1, n, emit);
    assert RowsOf(n, i, emit) == before + row;
    if c in before {
      a, b := RowsSource(n, i - 1, emit, c);
    } else {
      a := i - 1;
      b := RowSource(n, i - 1, n, emit, c);
    }
  }

  /** What a pair `a < b` yields is collected once `a` has been visited. */
  lemma {:induction false} RowsHas<T>(n: nat, i: nat, a: nat, b: nat, emit: (nat, nat) -> seq<T>, c: T)
    requires a < i <= n && a < b < n && c in emit(a, b)
    ensures c in RowsOf(n, i, emit)
  {
    if a < i - 1 {
      RowsHas(n, i - 1, a, b, emit, c);
    } else {
      RowHas(n, a, n, b, emit, c);
    }
  }

  /** Every pair yields nothing or one item ... */
  ghost predicate AtMostOne<T>(n: nat, emit: (nat, nat) -> seq<T>) {
    forall a: nat, b: nat :: a < b < n ==> |emit(a, b)| <= 1
  }

  /** ... so row `i` holds at most one item per partner visited. */
  lemma {:induction false} RowBound<T>(n: nat, i: nat, j: nat, emit: (nat, nat) -> seq<T>)
    requires i < j <= n && AtMostOne(n, emit)
    ensures |RowOf(n, i, j, emit)| <= j - i - 1
    decreases j
  {
    if j > i + 1 {
      RowBound(n, i, j - 1, emit);
    }
  }

  /** The number of pairs with first element below `i` grows by the
      `n - i` partners of element `i - 1`. */
  lemma PairCountStep(i: int, n: int)
    ensures (i - 1) * (2 * n - (i - 1) - 1) + 2 * (n - i) == i * (2 * n - i - 1)
  {
  }

  /** ... and the first `i` rows hold at most one item per pair visited. */
  lemma {:induction false} RowsBound<T>(n: nat, i: nat, emit: (nat, nat) -> seq<T>)
    requires i <= n && AtMostOne(n, emit)
    ensures 2 * |RowsOf(n, i, emit)| <= i * (2 * n - i - 1)
  {
    if i > 0 {
      RowsBound(n, i - 1, emit);
      RowBound(n, i - 1, n, emit);
      PairCountStep(i, n);
      var before, row := |RowsOf(n, i - 1, emit)|, |RowOf(n, i - 1, n, emit)|;
      assert |RowsOf(n, i, emit)| == before + row;
      assert 2 * before <= (i - 1) * (2 * n - (i - 1) - 1);
      assert row <= n - i;
    }
  }
}
