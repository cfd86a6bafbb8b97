// How many steps Ancestor takes: the bound that the comment on getAncestorHeight
// claims (blockindex.go), that it is the exact maximum, and a bound for every
// start and every target.

module SkipCost {
  import opened Bits
  import opened BlockTree

  /** The most steps a lookup takes when it starts at a height whose lowest set
      bit is bit k and does not go below that height with the bit cleared. */
  function MaxSteps(k: nat): nat {
    if k == 0 then 0
    else if k % 2 == 0 then MaxSteps(k - 1) + k
    else MaxSteps(k - 1) + (k + 1) / 2
  }

  /** In closed form, about 3/8 of the square of k. */
  lemma {:induction false} MaxStepsClosedForm(p: nat)
    ensures 2 * MaxSteps(2 * p) == 3 * (p * (p + 1))
    ensures MaxSteps(2 * p + 1) == MaxSteps(2 * p) + p + 1
  {
    if p > 0 {
      MaxStepsClosedForm(p - 1);
      assert MaxSteps(2 * p) == MaxSteps(2 * (p - 1) + 1) + 2 * p;
      assert (p - 1) * (p - 1 + 1) == p * p - p && p * (p + 1) == p * p + p;
    }
  }

  /** The steps from n - 1 to n - 2^j, for n a multiple of 2^(j+1). */
  function StepsToBit(j: nat): nat {
    if j % 2 == 0 then j / 2 else j
  }

  /** The bound grows with the bit, by the cost of one more bit. */
  lemma {:induction false} MaxStepsMonotone(j: nat, k: nat)
    requires j <= k
    ensures MaxSteps(j) <= MaxSteps(k)
    ensures j < k ==> 1 + StepsToBit(j) + MaxSteps(j) <= MaxSteps(k)
  {
    if j < k {
      MaxStepsMonotone(j, k - 1);
    }
  }

  /** Skipping from a height that ends in two or more 1 bits above bit i. */
  lemma SkipTwoBits(q: nat, i: nat)
    requires q % 4 == 3
    ensures GetAncestorHeight(Shl(q, i)) == Shl(q - 3, i) == Shl(q, i) - 3 * Pow2(i)
  {
    SkipTwoOnes(q / 4, i);
  }

  lemma SkipTwoOnes(c: nat, i: nat)
    ensures GetAncestorHeight(Shl(4 * c + 3, i)) == Shl(4 * c, i) == Shl(4 * c + 3, i) - 3 * Pow2(i)
  {
    hide InvertLowestOne, Shl, Pow2;
    var p := 2 * c + 1;
    DoubleShl(p, i);
    DoubleShl(p - 1, i);
    PowerUnfold(i);
    InvertLowestOneClears(2 * p + 1, i);
    InvertLowestOneClears(p, i + 1);
  }

  lemma DoubleShl(n: nat, i: nat)
    ensures Shl(2 * n, i) == Shl(n, i + 1)
  {
    ShlUnfold(n, 0);
    ShlShl(n, 1, i);
  }

  lemma PowerUnfold(i: nat)
    ensures Pow2(i + 1) == 2 * Pow2(i)
  {}

  /** One iteration of the lookup. */
  lemma Step(from: nat, to: nat)
    requires to <= from
    ensures from == to ==> LookupSteps(from, to) == 0
    ensures GetAncestorHeight(from) >= to && from > to ==>
              LookupSteps(from, to) == 1 + LookupSteps(GetAncestorHeight(from), to)
    ensures GetAncestorHeight(from) < to < from ==> LookupSteps(from, to) == 1 + LookupSteps(from - 1, to)
  {}

  /** Below a multiple n of 2^j, skips pop the 1 bits of n - 2^i two at a time. */
  lemma {:induction false} SkipRun(c: nat, i: nat, j: nat, to: nat)
    requires c > 0 && i <= j && (j - i) % 2 == 0
    requires to <= Shl(c, j) - Pow2(j)
    ensures Pow2(i) <= Pow2(j) <= Shl(c, j)
    ensures LookupSteps(Shl(c, j) - Pow2(i), to) == (j - i) / 2 + LookupSteps(Shl(c, j) - Pow2(j), to)
    decreases j - i
  {
    hide GetAncestorHeight, LookupSteps;
    Pow2Monotone(i, j);
    BelowMultiple(c, j, j);
    if i < j {
      SkipRun(c, i + 2, j, to);
      Pow2Monotone(i + 2, j);
      BelowMultiple(c, j, i);
      var q := Shl(c, j - i) - 1;
      assert Shl(q, i) == Shl(c, j) - Pow2(i);
      SkipTwoBits(q, i);
      Step(Shl(c, j) - Pow2(i), to);
      assert Pow2(i + 2) == 2 * Pow2(i + 1) == 4 * Pow2(i);
    }
  }

  /** n - 2^i for a multiple n of 2^j ends in j - i 1 bits above bit i. */
  lemma BelowMultiple(c: nat, j: nat, i: nat)
    requires c > 0 && i <= j
    ensures Shl(c, j - i) > 0 && Shl(Shl(c, j - i) - 1, i) == Shl(c, j) - Pow2(i)
    ensures j - i >= 2 ==> (Shl(c, j - i) - 1) % 4 == 3
  {
    hide Shl;
    ShlGrows(c, j - i);
    ShlShl(c, j - i, i);
    ShlAdd(Shl(c, j - i) - 1, 1, i);
    if j - i >= 2 {
      ShlUnfold(c, j - i - 1);
      ShlUnfold(c, j - i - 2);
    }
  }

  /** The exact cost of going from n - 1 to n - 2^j, when the target lies above
      n - 2^(j+1) and n is a multiple of 2^k for some k > j. */
  lemma ReachBit(c: nat, k: nat, j: nat, to: nat)
    requires c > 0 && j < k
    requires Shl(c, k) - Pow2(j + 1) < to <= Shl(c, k) - Pow2(j)
    ensures LookupSteps(Shl(c, k) - 1, to) == StepsToBit(j) + LookupSteps(Shl(c, k) - Pow2(j), to)
  {
    hide GetAncestorHeight, LookupSteps;
    if j % 2 == 0 {
      ShlShl(c, k - j, j);
      ShlGrows(c, k - j);
      SkipRun(Shl(c, k - j), 0, j, to);
    } else {
      ReachOddBit(c, k, j, to);
    }
  }

  /** For odd j the skips lead to n - 2^(j-1), where the next one overshoots; after
      a step to the parent they lead on to n - 2^j. */
  lemma ReachOddBit(c: nat, k: nat, j: nat, to: nat)
    requires c > 0 && j < k && j % 2 == 1
    requires Shl(c, k) - Pow2(j + 1) < to <= Shl(c, k) - Pow2(j)
    ensures LookupSteps(Shl(c, k) - 1, to) == j + LookupSteps(Shl(c, k) - Pow2(j), to)
  {
    hide GetAncestorHeight, LookupSteps;
    var i := j - 1;
    var n, p, d := Shl(c, k), Pow2(i), Shl(c, k - i);
    assert Pow2(j) == 2 * p && Pow2(j + 1) == 2 * Pow2(j);
    ShlShl(c, k - i, i);
    ShlGrows(c, k - i);
    SkipRun(d, 0, i, to);
    BelowMultiple(c, k, i);
    SkipTwoBits(d - 1, i);
    Step(n - p, to);
    SkipRun(d - 1, 0, i, to);
  }

  /** Bit j of the position of a target below n. */
  lemma {:induction false} FindBit(n: nat, k: nat, to: nat) returns (j: nat)
    requires n - Pow2(k) < to < n && k > 0
    ensures j < k && n - Pow2(j + 1) < to <= n - Pow2(j)
  {
    if to <= n - Pow2(k - 1) {
      j := k - 1;
    } else {
      assert k > 1;
      j := FindBit(n, k - 1, to);
    }
  }

  /** From a height with lowest set bit k to any height above the one with that
      bit cleared: at most MaxSteps(k) steps. */
  lemma {:induction false} StepsWithinBit(q: nat, k: nat, to: nat)
    requires q % 2 == 1
    requires Shl(q - 1, k) < to <= Shl(q, k)
    ensures LookupSteps(Shl(q, k), to) <= MaxSteps(k)
    decreases k
  {
    hide GetAncestorHeight, LookupSteps;
    ShlAdd(q - 1, 1, k);
    var n := Shl(q, k);
    Step(n, n);
    if to < n {
      assert k > 0;
      var j := FindBit(n, k, to);
      SkipOvershoots(q, k, to);
      ReachBit(q, k, j, to);
      OddPart(q, k, j);
      var q' := Shl(q, k - j) - 1;
      ShlAdd(q' - 1, 1, j);
      Pow2Monotone(j, j + 1);
      StepsWithinBit(q', j, to);
      MaxStepsMonotone(j, k);
    }
  }

  lemma SkipBelow(q: nat, k: nat)
    requires q % 2 == 1
    ensures GetAncestorHeight(Shl(q, k)) <= Shl(q - 1, k)
  {
    InvertLowestOneClears(q, k);
    SkipShrinks(Shl(q - 1, k));
  }

  /** A lookup that must stay above n with its lowest set bit cleared starts by
      going to the parent. */
  lemma SkipOvershoots(q: nat, k: nat, to: nat)
    requires q % 2 == 1
    requires Shl(q - 1, k) < to < Shl(q, k)
    ensures LookupSteps(Shl(q, k), to) == 1 + LookupSteps(Shl(q, k) - 1, to)
  {
    hide GetAncestorHeight, LookupSteps;
    SkipBelow(q, k);
    Step(Shl(q, k), to);
  }

  /** n - 2^j has lowest set bit j, for n a multiple of 2^k and j < k. */
  lemma OddPart(c: nat, k: nat, j: nat)
    requires c > 0 && j < k
    ensures Shl(c, k - j) > 0 && (Shl(c, k - j) - 1) % 2 == 1
    ensures Shl(Shl(c, k - j) - 1, j) == Shl(c, k) - Pow2(j)
    ensures Shl(Shl(c, k - j) - 2, j) == Shl(c, k) - Pow2(j + 1)
  {
    BelowMultiple(c, k, j);
    ShlGrows(c, k - j - 1);
    ShlAdd(Shl(c, k - j) - 2, 1, j);
  }

  /** The bound is attained: by the lookup that stops just above the height with
      the bit cleared. */
  lemma {:induction false} StepsWithinBitAttained(q: nat, k: nat)
    requires q % 2 == 1
    ensures Shl(q - 1, k) + 1 <= Shl(q, k)
    ensures LookupSteps(Shl(q, k), Shl(q - 1, k) + 1) == MaxSteps(k)
    decreases k
  {
    hide GetAncestorHeight, LookupSteps;
    ShlAdd(q - 1, 1, k);
    Step(Shl(q, k), Shl(q, k));
    if k > 0 {
      var to := Shl(q - 1, k) + 1;
      assert Pow2(k) == 2 * Pow2(k - 1);
      SkipOvershoots(q, k, to);
      ReachBit(q, k, k - 1, to);
      OddPart(q, k, k - 1);
      StepsWithinBitAttained(Shl(q, 1) - 1, k - 1);
    }
  }

  /** From height 2^k: the bound, with the height that attains it. */
  lemma {:induction false} StepsFromPowerOfTwo(k: nat, to: nat)
    requires k > 0 && to <= Pow2(k)
    ensures LookupSteps(Pow2(k), to) <= MaxSteps(k)
    ensures LookupSteps(Pow2(k), 1) == MaxSteps(k)
  {
    hide GetAncestorHeight, LookupSteps;
    ShlZero(k);
    StepsWithinBitAttained(1, k);
    if to > 0 {
      StepsWithinBit(1, k, to);
    } else {
      SkipBelow(1, k);
      Step(Pow2(k), 0);
      Step(0, 0);
      MaxStepsMonotone(1, k);
    }
  }

  lemma {:induction false} ShlZero(i: nat)
    ensures Shl(0, i) == 0
  {
    if i > 0 {
      ShlZero(i - 1);
    }
  }

  /** The comment on getAncestorHeight: going back from height 1 << 29 takes at
      most 330 steps, and reaching height 1 does take 330. */
  lemma {:induction false} StepsFromOneShl29(to: nat)
    requires to <= Pow2(29)
    ensures LookupSteps(Pow2(29), to) <= 330
    ensures LookupSteps(Pow2(29), 1) == 330
  {
    hide *;
    StepsFromPowerOfTwo(29, to);
    MaxStepsClosedForm(14);
  }

  // ----- Every start and every target -----

  /** The skip pointer of a height with lowest set bits a and b leads to the height
      with both cleared. */
  lemma SkipOf(q: nat, a: nat, q': nat, i: nat)
    requires q % 2 == 1 && q' % 2 == 1 && q - 1 == Shl(q', i)
    ensures Shl(q - 1, a) == Shl(q', a + i) == Shl(q, a) - Pow2(a)
    ensures GetAncestorHeight(Shl(q, a)) == Shl(q' - 1, a + i)
  {
    hide BitAnd, InvertLowestOne;
    InvertLowestOneClears(q, a);
    ShlShl(q', i, a);
    InvertLowestOneClears(q', a + i);
  }

  /** A lookup that clears the lowest set bit of its start by parents and skips,
      because the skip pointer itself overshoots. */
  lemma ClearLowest(q: nat, a: nat, q': nat, i: nat, to: nat)
    requires q % 2 == 1 && q' % 2 == 1 && q - 1 == Shl(q', i)
    requires Shl(q' - 1, a + i) < to <= Shl(q, a) - Pow2(a)
    ensures LookupSteps(Shl(q, a), to) == 1 + StepsToBit(a) + LookupSteps(Shl(q, a) - Pow2(a), to)
  {
    hide GetAncestorHeight, LookupSteps, Shl;
    SkipOf(q, a, q', i);
    Step(Shl(q, a), to);
    if a % 2 == 0 {
      SkipRun(q, 0, a, to);
      ShlUnfold(1, 0);
    } else {
      ClearLowestOdd(q, a - 1, q', i, to);
    }
  }

  /** The same for an odd bit j + 1, from the parent of the start. */
  lemma ClearLowestOdd(q: nat, j: nat, q': nat, i: nat, to: nat)
    requires q % 2 == 1 && q' % 2 == 1 && q - 1 == Shl(q', i) && j % 2 == 0
    requires Shl(q' - 1, j + 1 + i) < to <= Shl(q, j + 1) - Pow2(j + 1)
    ensures LookupSteps(Shl(q, j + 1) - 1, to) == j + 1 + LookupSteps(Shl(q, j + 1) - Pow2(j + 1), to)
  {
    hide GetAncestorHeight, LookupSteps, Shl;
    var n, x := Shl(q, j + 1), Shl(2 * q - 1, j);
    ShlShl(q, 1, j);
    ShlUnfold(q, 0);
    ShlUnfold(1, j);
    ShlUnfold(1, 0);
    ShlUnfold(q', i);
    ShlAdd(2 * q - 1, 1, j);
    assert x == n - Pow2(j);
    SkipRun(2 * q, 0, j, to);
    assert 2 * q - 2 == Shl(q', i + 1);
    SkipOf(2 * q - 1, j, q', i + 1);
    Step(x, to);
    SkipRun(2 * q - 1, 0, j, to);
  }

  /** What it costs to reach a height with lowest set bit d by skips, and to clear that
      bit on the way to a lower target: the bits below it pop in pairs. */
  function ClearCost(d: nat): nat {
    1 + StepsToBit(d) + d / 2
  }

  /** The largest such cost for a bit below n. */
  function MaxClear(n: nat): nat {
    if n == 0 then 0
    else if ClearCost(n - 1) > MaxClear(n - 1) then ClearCost(n - 1)
    else MaxClear(n - 1)
  }

  lemma {:induction false} MaxClearBounds(d: nat, n: nat)
    requires d < n
    ensures ClearCost(d) <= MaxClear(n) && n <= MaxClear(n)
  {
    if d < n - 1 {
      MaxClearBounds(d, n - 1);
    }
  }

  /** In closed form. */
  lemma {:induction false} MaxClearClosedForm(p: nat)
    requires p > 0
    ensures MaxClear(2 * p) == 3 * p - 1
    ensures p > 1 ==> MaxClear(2 * p + 1) == 3 * p - 1
  {
    hide ClearCost;
    ClearCostAt(p);
    MaxClearNext(2 * p - 2);
    MaxClearNext(2 * p - 1);
    MaxClearNext(2 * p);
    if p > 1 {
      MaxClearClosedForm(p - 1);
    }
  }

  lemma MaxClearNext(n: nat)
    ensures MaxClear(0) == 0
    ensures MaxClear(n + 1) == if ClearCost(n) > MaxClear(n) then ClearCost(n) else MaxClear(n)
  {}

  lemma ClearCostAt(p: nat)
    ensures ClearCost(2 * p) == 2 * p + 1
    ensures p > 0 ==> ClearCost(2 * p - 1) == 3 * p - 1 && ClearCost(2 * p - 2) == 2 * p - 1
  {
    assert (2 * p) / 2 == p && (2 * p) % 2 == 0;
    if p > 0 {
      assert 2 * p - 1 == 2 * (p - 1) + 1 && 2 * p - 2 == 2 * (p - 1);
    }
  }

  /** The most steps of any lookup between heights below 2^m. */
  function MaxAnywhere(m: nat): nat
    requires m >= 2
  {
    MaxSteps(m - 1) + MaxClear(m - 1)
  }

  lemma OneStep()
    ensures MaxSteps(1) == 1
  {}

  lemma Slack(a: nat, b: nat, m: nat)
    requires a <= b < m && m >= 2
    ensures MaxSteps(b) + a / 2 <= MaxAnywhere(m) && 1 + a / 2 <= MaxAnywhere(m)
    ensures a < b ==> MaxSteps(b) + ClearCost(a) <= MaxAnywhere(m)
  {
    hide MaxSteps, MaxClear, ClearCost;
    MaxStepsMonotone(b, m - 1);
    OneStep();
    MaxStepsMonotone(1, m - 1);
    MaxClearBounds(m - 2, m - 1);
    if a < b {
      MaxClearBounds(a, m - 1);
    }
  }

  /** The bits of a number below 2^m are below m. */
  lemma BitBelow(q: nat, a: nat, m: nat)
    requires 0 < q && Shl(q, a) < Pow2(m)
    ensures a < m
  {
    ShlAdd(q - 1, 1, a);
    if a >= m {
      Pow2Monotone(m, a);
    }
  }

  /** From a height below 2^m with lowest set bit a to any height. */
  lemma {:induction false} StepsFrom(m: nat, q: nat, a: nat, to: nat)
    requires q % 2 == 1 && to <= Shl(q, a) < Pow2(m) && m >= 2
    ensures LookupSteps(Shl(q, a), to) + a / 2 <= MaxAnywhere(m)
    decreases Shl(q, a)
  {
    hide GetAncestorHeight, LookupSteps, Shl, MaxSteps, MaxAnywhere;
    var p := Shl(q - 1, a);
    ShlAdd(q - 1, 1, a);
    BitBelow(q, a, m);
    Slack(a, a, m);
    if to > p {
      StepsWithinBit(q, a, to);
    } else if q == 1 {
      ShlZero(a);
      SkipBelow(1, a);
      Step(Pow2(a), 0);
      Step(0, 0);
    } else {
      var q', i := LowestBit(q - 1);
      ShlUnfold(q', 0);
      assert i > 0;
      SkipOf(q, a, q', i);
      var b, r := a + i, Shl(q' - 1, a + i);
      Step(Shl(q, a), to);
      ShlAdd(q' - 1, 1, b);
      if to > r {
        ClearLowest(q, a, q', i, to);
        StepsWithinBit(q', b, to);
        BitBelow(q', b, m);
        Slack(a, b, m);
      } else if q' == 1 {
        ShlZero(b);
        Step(0, 0);
      } else {
        var q'', i' := LowestBit(q' - 1);
        ShlUnfold(q'', 0);
        assert i' > 0;
        ShlShl(q'', i', b);
        StepsFrom(m, q'', b + i', to);
      }
    }
  }

  /** Every lookup between heights below 2^m: about 3/8 of the square of m steps. */
  lemma StepsAnywhere(m: nat, from: nat, to: nat)
    requires m >= 2 && to <= from < Pow2(m)
    ensures LookupSteps(from, to) <= MaxAnywhere(m)
  {
    if from > 0 {
      var q, a := LowestBit(from);
      StepsFrom(m, q, a, to);
    }
  }

  /** A start with bits 1 to d, and bit d + i above them, for odd d. */
  lemma PairsThenTwoBits(c: nat, p: nat, i: nat)
    requires p > 0 && i > 0 && c == Shl(1, i) + 2
    ensures var d := 2 * p - 1;
            && Shl(c, d) >= 3 && Pow2(d + i) + Pow2(d + 1) == Shl(c, d)
            && LookupSteps(Shl(c, d) - 2, 1) == 3 * p - 1 + MaxSteps(d + i)
  {
    hide GetAncestorHeight, LookupSteps, Shl, Pow2, MaxSteps;
    var d := 2 * p - 1;
    TwoBits(c, d, i);
    assert (d - 1) / 2 == p - 1 && (d - 1) % 2 == 0;
    SkipRun(c, 1, d, 1);
    ClearLowest(c - 1, d, 1, i, 1);
    StepsFromPowerOfTwo(d + i, 1);
  }

  /** A number with bits i and 1, shifted by d, and without bit d. */
  lemma TwoBits(c: nat, d: nat, i: nat)
    requires d > 0 && i > 0 && c == Shl(1, i) + 2
    ensures c % 2 == 0 && Pow2(1) == 2 && Shl(0, d + i) == 0 && c - 2 == Shl(1, i)
    ensures Shl(c, d) >= 3 && Pow2(d + i) + Pow2(d + 1) == Shl(c, d)
    ensures Shl(c - 1, d) == Shl(c, d) - Pow2(d) && Shl(c - 2, d) == Shl(c - 1, d) - Pow2(d) == Pow2(d + i) >= 1
  {
    hide Shl;
    ShlUnfold(1, 0);
    ShlUnfold(1, i - 1);
    ShlUnfold(1, d);
    ShlAdd(c - 2, 1, d);
    ShlAdd(c - 1, 1, d);
    ShlShl(1, i, d);
    ShlZero(d + i);
    ShlGrows(1, i);
    ShlGrows(c, d);
  }

  /** The bound is attained at target 1: for odd m = 2p + 1 from the height with all bits
      but the lowest, for even m = 2p + 2 from that without bit 2p. */
  lemma StepsAnywhereAttained(p: nat)
    requires p > 0
    ensures 1 <= Pow2(2 * p + 1) - 2 && LookupSteps(Pow2(2 * p + 1) - 2, 1) == MaxAnywhere(2 * p + 1)
    ensures p > 1 ==>
              var from := Pow2(2 * p + 2) - Pow2(2 * p) - 2;
              1 <= from && LookupSteps(from, 1) == MaxAnywhere(2 * p + 2)
  {
    hide GetAncestorHeight, LookupSteps, Shl, Pow2, MaxSteps, MaxClear;
    MaxClearClosedForm(p);
    ShlUnfold(1, 0);
    ShlUnfold(1, 1);
    PowerUnfold(2 * p);
    PowerUnfold(2 * p + 1);
    PairsThenTwoBits(4, p, 1);
    PairsThenTwoBits(6, p, 2);
  }

  /** Every lookup between heights that fit in an int32, with one that takes longest. */
  lemma StepsInt32(from: nat, to: nat)
    requires to <= from < 0x8000_0000
    ensures LookupSteps(from, to) <= 404
    ensures LookupSteps(0x7FFF_FFFE, 1) == 404
  {
    hide GetAncestorHeight, LookupSteps, MaxSteps, MaxClear;
    Pow2OfIntWidth();
    StepsAnywhere(31, from, to);
    StepsAnywhereAttained(15);
    MaxStepsClosedForm(15);
    MaxClearClosedForm(15);
  }
}
