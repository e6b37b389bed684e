/** The per-axis coarse map of the partitioner: fine index i goes to coarse
    id i // r, except that a short trailing remainder is folded into the
    previous coarse id. Also the per-id cell count (`_coarsening_ratio`) and
    the first/last-cell tests that `set_local_problem` uses to place the
    Dirichlet faces of each block. */
module CoarsePartition {
  import opened IndexArithmetic

  /** Python's `max` of a non-empty list. */
  function SeqMax(s: seq<int>): (m: int)
    requires |s| > 0
    ensures m in s && forall x :: x in s ==> x <= m
  {
    if |s| == 1 then s[0]
    else
      assert s == [s[0]] + s[1..];
      var rest := SeqMax(s[1..]);
      if s[0] >= rest then s[0] else rest
  }

  /** The fold test of `calculate_primal_ids` as written: the remainder
      (the n % r cells after the last full group) is folded when it is
      shorter than n // 2 (the mesh size halved, not the ratio). */
  predicate FoldsRemainder(n: nat, r: int)
    requires r > 0
  {
    n % r < n / 2
  }

  /** The coarse id that `calculate_primal_ids` leaves at fine index i of an
      axis of n cells and ratio r: i // r, except in a folded remainder,
      where it is n // r - 1 (`max(ids) - 1`). */
  function PrimalIdOf(n: nat, r: int, i: int): int
    requires r > 0
  {
    if i >= (n / r) * r && FoldsRemainder(n, r) then n / r - 1 else i / r
  }

  /** Line 156: `[i // r for i in xrange(n)]`, the ids before folding. */
  function Quotients(n: nat, r: int): (raw: seq<int>)
    requires r > 0
    ensures |raw| == n
  {
    seq(n, i => i / r)
  }

  /** The whole per-axis list, one id per fine index. */
  function AxisIds(n: nat, r: int): (ids: seq<int>)
    requires r > 0
    ensures |ids| == n
  {
    seq(n, i => PrimalIdOf(n, r, i))
  }

  /** `np.repeat(v, len).tolist()` */
  function Repeat(v: int, len: nat): (s: seq<int>)
    ensures |s| == len && forall x :: x in s ==> x == v
  {
    seq(len, _ => v)
  }

  /** Lines 159-172 for one axis, as written: cut the list at
      (n // r) * r and, when the tail is shorter than n // 2, overwrite it
      with `max(ids) - 1`. The outcome is the closed form AxisIds. */
  lemma FoldAsWritten(n: nat, r: int)
    requires r > 0
    ensures 0 <= (n / r) * r <= n
    ensures var raw := Quotients(n, r);
      var cut := (n / r) * r;
      (if |raw[cut..]| < n / 2
       then raw[..cut] + Repeat(SeqMax(raw) - 1, |raw[cut..]|)
       else raw) == AxisIds(n, r)
  {
    var raw := Quotients(n, r);
    var q, m := n / r, n % r;
    var cut := q * r;
    assert n == cut + m;
    DivMonotone(0, n, r);
    MulLeq(0, q, r);
    if |raw[cut..]| < n / 2 {
      var folded := raw[..cut] + Repeat(SeqMax(raw) - 1, |raw[cut..]|);
      if m > 0 {
        var top := SeqMax(raw);
        var i :| 0 <= i < n && raw[i] == top;
        DivMonotone(i, n - 1, r);
        assert raw[n - 1] in raw;
        DivModUnique(n - 1, r, q, m - 1);
        assert top == q;
      }
      forall i | 0 <= i < n
        ensures folded[i] == AxisIds(n, r)[i]
      {
      }
    }
  }

  /** How many distinct coarse ids an axis gets: n // r full groups, plus
      one for a remainder that is not folded. */
  function BlockCount(n: nat, r: int): nat
    requires r > 0
  {
    if n % r != 0 && !FoldsRemainder(n, r) then n / r + 1 else n / r
  }

  /** The number of fine cells of coarse id c: r, except for the final id,
      which runs to the end of the axis. */
  function BlockLen(n: nat, r: int, c: int): int
    requires r > 0
  {
    if c + 1 < BlockCount(n, r) then r else n - r * c
  }

  /** Block c starts at r*c, is non-empty, ends inside the axis, and the
      final block ends exactly at n. */
  lemma BlockBounds(n: nat, r: int, c: int)
    requires r > 0 && 0 <= c < BlockCount(n, r)
    ensures 1 <= BlockLen(n, r, c)
    ensures 0 <= r * c && r * c + BlockLen(n, r, c) <= n
    ensures c + 1 == BlockCount(n, r) <==> r * c + BlockLen(n, r, c) == n
  {
    MulLeq(0, c, r);
    if c + 1 < BlockCount(n, r) {
      FullBlockFits(n, r, c);
    } else {
      LastBlockFits(n, r, c);
    }
  }

  /** A block other than the last ends strictly before the axis does. */
  lemma FullBlockFits(n: nat, r: int, c: int)
    requires r > 0 && 0 <= c && c + 1 < BlockCount(n, r)
    ensures r * c + r < n
  {
    var q := n / r;
    assert n == q * r + n % r;
    MulSucc(r, c);
    if BlockCount(n, r) == q + 1 {
      MulLeq(c + 1, q, r);
    } else {
      MulSucc(r, c + 1);
      MulLeq(c + 2, q, r);
    }
  }

  /** The last block starts inside the axis. */
  lemma LastBlockFits(n: nat, r: int, c: int)
    requires r > 0 && 0 <= c && c + 1 == BlockCount(n, r)
    ensures r * c < n
  {
    var q := n / r;
    assert n == q * r + n % r;
    if BlockCount(n, r) != q + 1 {
      MulSucc(r, q - 1);
    }
  }

  /** The id of fine index i is a block below BlockCount whose window
      [r*id, r*id + BlockLen(id)) holds i. */
  lemma IdWindow(n: nat, r: int, i: int)
    requires r > 0 && 0 <= i < n
    ensures var id := AxisIds(n, r)[i];
      0 <= id < BlockCount(n, r) && r * id <= i < r * id + BlockLen(n, r, id)
  {
    var q := n / r;
    if i < q * r {
      FullGroupWindow(n, r, i);
    } else if FoldsRemainder(n, r) {
      FoldedTailWindow(n, r, i);
    } else {
      TailWindow(n, r, i);
    }
  }

  /** Inside the full groups the id is i // r, whose window holds i. */
  lemma FullGroupWindow(n: nat, r: int, i: int)
    requires r > 0 && 0 <= i < (n / r) * r
    ensures var d := i / r;
      0 <= d < BlockCount(n, r) && r * d <= i < r * d + BlockLen(n, r, d)
  {
    var q, d := n / r, i / r;
    assert n == q * r + n % r;
    assert i == d * r + i % r;
    DivMonotone(0, i, r);
    if d >= q {
      MulLeq(q, d, r);
    }
    MulSucc(r, d);
    if d + 1 >= BlockCount(n, r) {
      MulLeq(d + 1, q, r);
    }
  }

  /** A folded tail takes id n // r - 1, the last block, which runs to n. */
  lemma FoldedTailWindow(n: nat, r: int, i: int)
    requires r > 0 && (n / r) * r <= i < n && FoldsRemainder(n, r)
    ensures var d := n / r - 1;
      0 <= d < BlockCount(n, r) && r * d <= i < r * d + BlockLen(n, r, d)
  {
    var q := n / r;
    assert n == q * r + n % r;
    assert q >= 1;
    MulSucc(r, q - 1);
  }

  /** A tail that is not folded is a block of its own, id n // r. */
  lemma TailWindow(n: nat, r: int, i: int)
    requires r > 0 && (n / r) * r <= i < n && !FoldsRemainder(n, r)
    ensures var d := i / r;
      d == n / r && 0 <= d < BlockCount(n, r) && r * d <= i < r * d + BlockLen(n, r, d)
  {
    var q := n / r;
    assert n == q * r + n % r;
    DivModUnique(i, r, q, i - q * r);
  }

  /** Block windows are laid end to end: a full block c ends where block
      c + 1 starts. */
  lemma WindowsOrdered(n: nat, r: int, c: int, c': int)
    requires r > 0 && 0 <= c < c' < BlockCount(n, r)
    ensures BlockLen(n, r, c) == r
    ensures r * c + BlockLen(n, r, c) <= r * c'
    ensures c + 1 < c' ==> r * c + BlockLen(n, r, c) + r <= r * c'
  {
    MulSucc(r, c);
    MulLeq(c + 1, c', r);
    if c + 1 < c' {
      MulSucc(r, c + 1);
      MulLeq(c + 2, c', r);
    }
  }

  /** Fine index i carries id c exactly when it lies in block c's window
      [r*c, r*c + BlockLen(c)); every id lies in [0, BlockCount). */
  lemma BlockInterval(n: nat, r: int, i: int, c: int)
    requires r > 0 && 0 <= i < n && 0 <= c < BlockCount(n, r)
    ensures 0 <= AxisIds(n, r)[i] < BlockCount(n, r)
    ensures AxisIds(n, r)[i] == c <==> r * c <= i < r * c + BlockLen(n, r, c)
  {
    var id := AxisIds(n, r)[i];
    IdWindow(n, r, i);
    if c < id {
      WindowsOrdered(n, r, c, id);
    } else if c > id {
      WindowsOrdered(n, r, id, c);
    }
  }

  /** The id list starts at 0, never decreases, steps by at most 1, and ends
      at BlockCount - 1: every id from 0 to the last occurs. */
  lemma AxisIdsShape(n: nat, r: int)
    requires r > 0 && n > 0
    ensures AxisIds(n, r)[0] == 0
    ensures AxisIds(n, r)[n - 1] == BlockCount(n, r) - 1
    ensures forall i :: 0 <= i < n - 1 ==>
      AxisIds(n, r)[i] <= AxisIds(n, r)[i + 1] <= AxisIds(n, r)[i] + 1
  {
    var ids := AxisIds(n, r);
    IdWindow(n, r, 0);
    if ids[0] > 0 {
      MulLeq(1, ids[0], r);
    }
    IdWindow(n, r, n - 1);
    BlockBounds(n, r, ids[n - 1]);
    forall i | 0 <= i < n - 1
      ensures ids[i] <= ids[i + 1] <= ids[i] + 1
    {
      IdStep(n, r, i);
    }
  }

  /** Neighbouring fine indices have the same id or consecutive ids. */
  lemma IdStep(n: nat, r: int, i: int)
    requires r > 0 && 0 <= i < n - 1
    ensures var ids := AxisIds(n, r);
      ids[i] <= ids[i + 1] <= ids[i] + 1
  {
    var c, c' := AxisIds(n, r)[i], AxisIds(n, r)[i + 1];
    IdWindow(n, r, i);
    IdWindow(n, r, i + 1);
    if c' < c {
      WindowsOrdered(n, r, c', c);
    } else if c' > c + 1 {
      WindowsOrdered(n, r, c, c');
    }
  }

  /** Every coarse id below BlockCount occurs, first at fine index r*c; in
      particular every id below `_coarse_dims` (n // r) occurs. */
  lemma EveryBlockOccurs(n: nat, r: int, c: int)
    requires r > 0 && 0 <= c < BlockCount(n, r)
    ensures n / r <= BlockCount(n, r)
    ensures 0 <= r * c < n && AxisIds(n, r)[r * c] == c
  {
    BlockBounds(n, r, c);
    BlockInterval(n, r, r * c, c);
  }

  /** `max(primal_ids[dim])`, which `store_primal_adj` uses as the top of
      the coarse range, is the last id, BlockCount - 1. */
  lemma AxisIdsMax(n: nat, r: int)
    requires r > 0 && n > 0
    ensures SeqMax(AxisIds(n, r)) == BlockCount(n, r) - 1
  {
    var ids := AxisIds(n, r);
    var m := SeqMax(ids);
    var last := BlockCount(n, r) - 1;
    assert last >= 0 by {
      if n / r == 0 { assert n % r == n; }
    }
    BlockBounds(n, r, last);
    BlockInterval(n, r, n - 1, last);
    assert ids[n - 1] in ids;
    var i :| 0 <= i < n && ids[i] == m;
    BlockInterval(n, r, i, 0);
  }

  /** `_coarsening_ratio(dim)[c]`: how many fine indices carry id c. The
      source reads `Counter.values()` by position c, which relies on small
      integer keys being listed in increasing order; here it is the count. */
  function CoarseningRatio(ids: seq<int>, c: int): (count: nat)
    ensures count == multiset(ids)[c]
  {
    if |ids| == 0 then 0
    else
      var init := ids[..|ids| - 1];
      assert ids == init + [ids[|ids| - 1]];
      CoarseningRatio(init, c) + (if ids[|ids| - 1] == c then 1 else 0)
  }

  /** A value that occupies exactly the positions [lo, hi) occurs hi - lo times. */
  lemma {:induction false} CountInterval(s: seq<int>, c: int, lo: int, hi: int)
    requires 0 <= lo <= hi <= |s|
    requires forall i :: 0 <= i < |s| ==> (s[i] == c <==> lo <= i < hi)
    ensures CoarseningRatio(s, c) == hi - lo
  {
    if |s| > 0 {
      var init := s[..|s| - 1];
      var hi' := if hi == |s| then hi - 1 else hi;
      var lo' := if lo > hi' then hi' else lo;
      CountInterval(init, c, lo', hi');
    }
  }

  /** `_coarsening_ratio(dim)[c]` is the length of block c. */
  lemma BlockSize(n: nat, r: int, c: int)
    requires r > 0 && 0 <= c < BlockCount(n, r)
    ensures CoarseningRatio(AxisIds(n, r), c) == BlockLen(n, r, c)
  {
    BlockBounds(n, r, c);
    forall i | 0 <= i < n
      ensures AxisIds(n, r)[i] == c <==> r * c <= i < r * c + BlockLen(n, r, c)
    {
      BlockInterval(n, r, i, c);
    }
    CountInterval(AxisIds(n, r), c, r * c, r * c + BlockLen(n, r, c));
  }

  /** Line 480: fine index x is the first cell of its block (Dirichlet 1.0). */
  predicate IsLowFace(ids: seq<int>, r: int, x: int)
    requires 0 <= x < |ids|
  {
    x == r * ids[x]
  }

  /** Lines 489-494: fine index x is the last cell of its block (Dirichlet 0.0). */
  predicate IsHighFace(ids: seq<int>, r: int, x: int)
    requires 0 <= x < |ids|
  {
    x == r * ids[x] + CoarseningRatio(ids, ids[x]) - 1
  }

  /** Line 480 picks the first cell of each block: x is a low face iff it
      starts the axis or its predecessor has another id. */
  lemma LowFaceIsBlockStart(n: nat, r: int, x: int)
    requires r > 0 && 0 <= x < n
    ensures var ids := AxisIds(n, r);
      IsLowFace(ids, r, x) <==> x == 0 || ids[x - 1] != ids[x]
  {
    var ids := AxisIds(n, r);
    var c := ids[x];
    BlockInterval(n, r, x, 0);
    BlockInterval(n, r, x, c);
    if x > 0 {
      BlockInterval(n, r, x - 1, c);
    } else if c > 0 {
      MulLeq(1, c, r);
    }
  }

  /** Lines 489-494 pick the last cell of each block: x is a high face iff
      it ends the axis or its successor has another id. */
  lemma HighFaceIsBlockEnd(n: nat, r: int, x: int)
    requires r > 0 && 0 <= x < n
    ensures var ids := AxisIds(n, r);
      IsHighFace(ids, r, x) <==> x == n - 1 || ids[x + 1] != ids[x]
  {
    var ids := AxisIds(n, r);
    var c := ids[x];
    IdWindow(n, r, x);
    BlockBounds(n, r, c);
    BlockSize(n, r, c);
    if x < n - 1 {
      BlockInterval(n, r, x + 1, c);
    }
  }

  /** A cell passes both tests of `set_local_problem` (and keeps the later
      value, 0.0) exactly when its block is one cell thick. */
  lemma OneCellBlockIsBoth(n: nat, r: int, x: int)
    requires r > 0 && 0 <= x < n
    ensures var ids := AxisIds(n, r);
      IsLowFace(ids, r, x) && IsHighFace(ids, r, x) <==> BlockLen(n, r, ids[x]) == 1
  {
    var ids := AxisIds(n, r);
    var c := ids[x];
    BlockInterval(n, r, x, 0);
    BlockInterval(n, r, x, c);
    BlockSize(n, r, c);
  }
}
