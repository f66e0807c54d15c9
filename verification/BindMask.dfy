/** `DBBind`: a bit mask stands for "every parameter and every column has been bound". */
module BindMask {

  function Pow2(n: nat): (p: nat)
    ensures p >= 1
  {
    if n == 0 then 1 else 2 * Pow2(n - 1)
  }

  predicate BitSet(mask: nat, i: nat) {
    mask / Pow2(i) % 2 == 1
  }

  /** `mask | (1 << i)` */
  function OrBit(mask: nat, i: nat): nat {
    if BitSet(mask, i) then mask else mask + Pow2(i)
  }

  /** The template recursion, with its two specialisations. */
  function FullBits(c: nat): nat {
    if c == 0 then 0 else if c == 1 then 1 else OrBit(FullBits(c - 1), c - 1)
  }

  /** The mask whose bits are the members of `s` below `n`. */
  function MaskOf(s: set<nat>, n: nat): (mask: nat)
    ensures mask < Pow2(n)
  {
    if n == 0 then 0 else MaskOf(s, n - 1) + if n - 1 in s then Pow2(n - 1) else 0
  }

  lemma {:induction false} Pow2Split(i: nat, n: nat)
    requires i < n
    ensures Pow2(n) == 2 * Pow2(n - 1 - i) * Pow2(i)
    decreases n
  {
    if i < n - 1 {
      Pow2Split(i, n - 1);
      assert Pow2(n - 1 - i) == 2 * Pow2(n - 2 - i);
    }
  }

  lemma ProductLarge(p: int, d: int)
    requires p >= 0 && d != 0
    ensures p * d >= p || p * d <= -p
  {
    if d >= 1 {
      assert p * (d - 1) >= 0;
    } else {
      assert p * (-1 - d) >= 0;
    }
  }

  lemma DivUnique(x: nat, p: nat, q: nat, r: nat)
    requires r < p && x == p * q + r
    ensures x / p == q
  {
    var q', r' := x / p, x % p;
    assert p * (q' - q) == p * q' - p * q;
    if q' != q {
      ProductLarge(p, q' - q);
    }
  }

  lemma DivAbove(low: nat, k: nat, p: nat)
    requires p >= 1
    ensures (low + 2 * k * p) / p == low / p + 2 * k
  {
    var q, r := low / p, low % p;
    assert p * (q + 2 * k) == p * q + 2 * k * p;
    DivUnique(low + 2 * k * p, p, q + 2 * k, r);
  }

  lemma {:induction false} Pow2Mono(m: nat, n: nat)
    requires m <= n
    ensures Pow2(m) <= Pow2(n)
    decreases n
  {
    if m < n {
      Pow2Mono(m, n - 1);
    }
  }

  lemma AddEven(q: nat, k: nat)
    ensures (q + 2 * k) % 2 == q % 2
  {
  }

  /** Adding a higher power of two leaves bit `i` alone. */
  lemma HigherBit(low: nat, i: nat, n: nat)
    requires i < n
    ensures BitSet(low + Pow2(n), i) <==> BitSet(low, i)
  {
    var p, k := Pow2(i), Pow2(n - 1 - i);
    Pow2Split(i, n);
    DivAbove(low, k, p);
    AddEven(low / p, k);
  }

  /** Bit `i` of a number below `2^(i+1)` says whether it reaches `2^i`. */
  lemma TopBit(low: nat, bit: nat, i: nat)
    requires low < Pow2(i) && bit <= 1
    ensures BitSet(low + bit * Pow2(i), i) <==> bit == 1
  {
    DivUnique(low + bit * Pow2(i), Pow2(i), bit, low);
  }

  /** A mask has exactly the bits it was made from. */
  lemma {:induction false} MaskBit(s: set<nat>, n: nat, i: nat)
    ensures BitSet(MaskOf(s, n), i) <==> i in s && i < n
  {
    hide Pow2, BitSet;
    if i < n - 1 {
      MaskBit(s, n - 1, i);
      HigherBit(MaskOf(s, n - 1), i, n - 1);
    } else if i == n - 1 {
      TopBit(MaskOf(s, i), if i in s then 1 else 0, i);
    } else {
      hide MaskOf;
      Pow2Mono(n, i);
      TopBit(MaskOf(s, n), 0, i);
    }
  }

  /** Setting a bit is adding a member. */
  lemma OrBitMask(s: set<nat>, n: nat, i: nat)
    requires i < n
    ensures OrBit(MaskOf(s, n), i) == MaskOf(s + {i}, n)
  {
    MaskBit(s, n, i);
    AddMember(s, n, i);
  }

  lemma {:induction false} AddMember(s: set<nat>, n: nat, i: nat)
    ensures MaskOf(s + {i}, n) == MaskOf(s, n) + if i < n && i !in s then Pow2(i) else 0
  {
    if n == 0 {
    } else {
      AddMember(s, n - 1, i);
    }
  }

  /** The recursive constant is one less than a power of two. */
  lemma {:induction false} FullBitsExact(c: nat)
    ensures FullBits(c) == Pow2(c) - 1
  {
    if c > 1 {
      FullBitsExact(c - 1);
      DivUnique(FullBits(c - 1), Pow2(c - 1), 0, FullBits(c - 1));
    }
  }

  /** A mask is full exactly when every index below `n` is a member. */
  lemma {:induction false} MaskFull(s: set<nat>, n: nat)
    ensures MaskOf(s, n) == Pow2(n) - 1 <==> forall i | 0 <= i < n :: i in s
  {
    if n == 0 {
    } else {
      MaskFull(s, n - 1);
      if forall i | 0 <= i < n - 1 :: i in s {
        assert n - 1 in s ==> forall i | 0 <= i < n :: i in s;
      }
    }
  }

  lemma {:induction false} MaskIgnoresAbove(s: set<nat>, n: nat)
    requires s == {}
    ensures MaskOf(s, n) == 0
  {
    if n == 0 {
    } else {
      MaskIgnoresAbove(s, n - 1);
    }
  }

  /**
   The binder. Counts are at most 31, so that `1 << idx` stays within a signed `int`; the calls
   into the database connection and the length buffers are not part of the model.
   */
  class DBBind {
    const paramCount: nat
    const columnCount: nat
    var paramFlag: nat
    var columnFlag: nat
    ghost var boundParams: set<nat>
    ghost var boundColumns: set<nat>

    ghost predicate Valid()
      reads this
    {
      && paramCount <= 31 && columnCount <= 31
      && paramFlag == MaskOf(boundParams, paramCount)
      && columnFlag == MaskOf(boundColumns, columnCount)
    }

    constructor (params: nat, columns: nat)
      requires params <= 31 && columns <= 31
      ensures Valid() && paramCount == params && columnCount == columns
      ensures boundParams == {} && boundColumns == {}
    {
      paramCount, columnCount := params, columns;
      paramFlag, columnFlag := 0, 0;
      boundParams, boundColumns := {}, {};
      new;
      MaskIgnoresAbove({}, params);
      MaskIgnoresAbove({}, columns);
    }

    method BindParam(idx: nat)
      requires Valid() && idx < paramCount
      modifies this`paramFlag, this`boundParams
      ensures Valid() && boundParams == old(boundParams) + {idx}
    {
      OrBitMask(boundParams, paramCount, idx);
      paramFlag := OrBit(paramFlag, idx);
      boundParams := boundParams + {idx};
    }

    method BindCol(idx: nat)
      requires Valid() && idx < columnCount
      modifies this`columnFlag, this`boundColumns
      ensures Valid() && boundColumns == old(boundColumns) + {idx}
    {
      OrBitMask(boundColumns, columnCount, idx);
      columnFlag := OrBit(columnFlag, idx);
      boundColumns := boundColumns + {idx};
    }

    /** True exactly when every parameter and every column was bound at least once. */
    method Validata() returns (ok: bool)
      requires Valid()
      ensures ok <==> && (forall i | 0 <= i < paramCount :: i in boundParams)
                      && (forall i | 0 <= i < columnCount :: i in boundColumns)
    {
      FullBitsExact(paramCount);
      FullBitsExact(columnCount);
      MaskFull(boundParams, paramCount);
      MaskFull(boundColumns, columnCount);
      ok := paramFlag == FullBits(paramCount) && columnFlag == FullBits(columnCount);
    }
  }

  function BindAll(mask: nat, binds: seq<nat>): nat
    decreases |binds|
  {
    if binds == [] then mask else BindAll(OrBit(mask, binds[0]), binds[1..])
  }

  /** Any order, any repetition: what a run of binds leaves depends only on the set of indices. */
  lemma {:induction false} BindRun(s: set<nat>, n: nat, binds: seq<nat>)
    requires forall i | i in binds :: i < n
    ensures BindAll(MaskOf(s, n), binds) == MaskOf(s + (set i | i in binds), n)
    ensures BindAll(MaskOf(s, n), binds) == FullBits(n) <==> forall i | 0 <= i < n :: i in s || i in binds
    decreases |binds|
  {
    if binds == [] {
      assert s + (set i | i in binds) == s;
      FullBitsExact(n);
      MaskFull(s, n);
    } else {
      var i, rest := binds[0], binds[1..];
      assert i in binds && forall j | j in rest :: j in binds;
      assert forall j :: j in binds <==> j == i || j in rest;
      OrBitMask(s, n, i);
      BindRun(s + {i}, n, rest);
      assert s + {i} + (set j | j in rest) == s + (set j | j in binds);
    }
  }
}
