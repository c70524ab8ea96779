/** Enumeration of error patterns: sets of bit positions, how many there are, and how
    the recursion of crc.c visits every one of them exactly once. */
module Patterns {

  // ---------------------------------------------------------- binomial numbers

  function Binomial(n: nat, k: nat): nat {
    if k == 0 then 1
    else if n == 0 then 0
    else Binomial(n - 1, k - 1) + Binomial(n - 1, k)
  }

  lemma {:induction false} BinomialAboveDiagonal(n: nat, k: nat)
    requires k > n
    ensures Binomial(n, k) == 0
  {
    if n > 0 {
      BinomialAboveDiagonal(n - 1, k - 1);
      BinomialAboveDiagonal(n - 1, k);
    }
  }

  lemma {:induction false} BinomialDiagonal(n: nat)
    ensures Binomial(n, n) == 1
  {
    if n > 0 {
      BinomialDiagonal(n - 1);
      BinomialAboveDiagonal(n - 1, n);
    }
  }

  lemma {:induction false} Absorption(n: nat, k: nat)
    requires 1 <= k <= n
    ensures k * Binomial(n, k) == n * Binomial(n - 1, k - 1)
    decreases n
  {
    if k == n {
      BinomialAboveDiagonal(n - 1, n);
    } else if k == 1 {
      Absorption(n - 1, 1);
    } else {
      Absorption(n - 1, k);
      Absorption(n - 1, k - 1);
      AbsorptionStep(n, k, Binomial(n - 1, k - 1), Binomial(n - 1, k), Binomial(n - 2, k - 1), Binomial(n - 2, k - 2));
    }
  }

  lemma AbsorptionStep(n: nat, k: nat, a: nat, b: nat, c: nat, d: nat)
    requires k * b == (n - 1) * c && (k - 1) * a == (n - 1) * d && a == c + d
    ensures k * (a + b) == n * a
  {
    assert k * (a + b) == (k - 1) * a + a + k * b;
    assert (n - 1) * a == (n - 1) * c + (n - 1) * d;
  }

  /** The step of the product formula, which is why the division below is exact. */
  lemma BinomialRatio(n: nat, k: nat)
    requires 1 <= k <= n
    ensures Binomial(n, k - 1) * (n - k + 1) == k * Binomial(n, k)
  {
    Absorption(n, k);
    if k == 1 {
      BinomialRatioStep(n, 1, Binomial(n - 1, 0), 0);
    } else {
      Absorption(n, k - 1);
      BinomialRatioStep(n, k, Binomial(n - 1, k - 1), Binomial(n - 1, k - 2));
    }
  }

  lemma BinomialRatioStep(n: nat, k: nat, a: nat, b: nat)
    requires 1 <= k <= n && (k - 1) * (a + b) == n * b
    ensures (a + b) * (n - k + 1) == n * a
  {
    assert (a + b) * (n - k + 1) == (a + b) * n - (k - 1) * (a + b);
  }

  lemma AtLeast(d: int, i: nat)
    requires d >= 1
    ensures d * i >= i
  {
  }

  lemma AtMost(d: int, i: nat)
    requires d <= -1
    ensures d * i + i <= 0
  {
  }

  lemma ExactDivision(p: nat, i: nat, q: nat)
    requires i > 0 && p == i * q
    ensures p / i == q
  {
    var d: int := (q as int) - p / i;
    assert d * i == p % i;
    if d >= 1 {
      AtLeast(d, i);
    } else if d <= -1 {
      AtMost(d, i);
    }
  }

  method Combinations(n: int, k: nat) returns (result: nat)
    ensures result == if n < 0 then (if k == 0 then 1 else 0) else Binomial(n, k)
  {
    result := 1;
    if k == 0 || k == n {
      if n >= 0 {
        BinomialDiagonal(n);
      }
      return 1;
    }
    if k > n {
      if n >= 0 {
        BinomialAboveDiagonal(n, k);
      }
      return 0;
    }
    var m := n;
    for i := 1 to k + 1
      invariant m == n - i + 1
      invariant result == Binomial(n, i - 1)
    {
      BinomialRatio(n, i);
      ExactDivision(result * m, i, Binomial(n, i));
      result := result * m / i;
      m := m - 1;
    }
  }

  // Number of non-empty subsets of an n-element set with at most k elements.
  function Sum(n: nat, k: nat): nat {
    if k == 0 then 0 else Sum(n, k - 1) + Binomial(n, k)
  }

  lemma {:induction false} SumPascal(n: nat, k: nat)
    requires n > 0 && k > 0
    ensures Sum(n, k) == 1 + Sum(n - 1, k - 1) + Sum(n - 1, k)
  {
    if k == 1 {
      assert Sum(n, 1) == Sum(n, 0) + Binomial(n, 1);
      assert Sum(n - 1, 1) == Sum(n - 1, 0) + Binomial(n - 1, 1);
      assert Binomial(n, 1) == Binomial(n - 1, 0) + Binomial(n - 1, 1);
    } else {
      SumPascal(n, k - 1);
    }
  }

  lemma {:induction false} SumOfEmpty(k: nat)
    ensures Sum(0, k) == 0
  {
    if k > 0 {
      SumOfEmpty(k - 1);
    }
  }

  // ------------------------------------------------------------- enumeration

  // All extensions of `base` by positions in [start, end), up to `max` elements in
  // all, in the order in which prepareSubtable fills them in.
  function Extensions(start: nat, end: nat, base: set<nat>, max: nat): seq<set<nat>>
    decreases end - start
  {
    if |base| >= max || start >= end then []
    else
      [base + {start}] + Extensions(start + 1, end, base + {start}, max) + Extensions(start + 1, end, base, max)
  }

  ghost predicate Within(s: set<nat>, start: nat, end: nat) {
    forall x :: x in s ==> start <= x < end
  }

  // s extends base by at least one position of [start, end).
  ghost predicate Extends(s: set<nat>, base: set<nat>, start: nat, end: nat) {
    base < s && Within(s - base, start, end)
  }

  lemma SubsetSize(a: set<nat>, b: set<nat>)
    requires a <= b
    ensures |a| <= |b| && (|a| == |b| ==> a == b)
  {
    assert b == a + (b - a);
    assert |b| == |a| + |b - a|;
  }

  // An extension of base either takes its first position or leaves it out.
  lemma TakeOrLeave(s: set<nat>, base: set<nat>, start: nat, end: nat)
    requires Within(base, 0, start) && start < end
    ensures start !in base && |base + {start}| == |base| + 1 && Within(base + {start}, 0, start + 1)
    ensures Extends(s, base, start, end) && start in s <==>
      s == base + {start} || Extends(s, base + {start}, start + 1, end)
    ensures Extends(s, base, start, end) && start !in s <==> Extends(s, base, start + 1, end)
  {
    hide Extends, Within;
    WithinInsert(base, start);
    Take(s, base, start, end);
    Leave(s, base, start, end);
  }

  lemma WithinInsert(base: set<nat>, start: nat)
    requires Within(base, 0, start)
    ensures start !in base && Within(base + {start}, 0, start + 1)
  {
  }

  lemma Take(s: set<nat>, base: set<nat>, start: nat, end: nat)
    requires start !in base && start < end
    ensures Extends(s, base, start, end) && start in s <==>
      s == base + {start} || Extends(s, base + {start}, start + 1, end)
  {
    if s == base + {start} {
      assert s - base == {start};
    } else if start in s {
      assert s - base == (s - (base + {start})) + {start};
      assert base < s <==> base + {start} < s;
    }
  }

  lemma Leave(s: set<nat>, base: set<nat>, start: nat, end: nat)
    requires start !in base
    ensures Extends(s, base, start, end) && start !in s <==> Extends(s, base, start + 1, end)
  {
    assert start in s ==> start in s - base;
  }

  lemma {:induction false} ExtensionsSound(start: nat, end: nat, base: set<nat>, max: nat, k: nat)
    requires Within(base, 0, start) && k < |Extensions(start, end, base, max)|
    ensures var s := Extensions(start, end, base, max)[k];
      Extends(s, base, start, end) && |s| <= max
    decreases end - start
  {
    hide Extends, Within;
    var taken := Extensions(start + 1, end, base + {start}, max);
    var s := Extensions(start, end, base, max)[k];
    TakeOrLeave(s, base, start, end);
    if 0 < k <= |taken| {
      ExtensionsSound(start + 1, end, base + {start}, max, k - 1);
    } else if k > |taken| {
      WithinMore(base, start);
      ExtensionsSound(start + 1, end, base, max, k - 1 - |taken|);
    }
  }

  lemma WithinMore(base: set<nat>, start: nat)
    requires Within(base, 0, start)
    ensures Within(base, 0, start + 1)
  {
  }

  lemma ExtendsSize(s: set<nat>, base: set<nat>, start: nat, end: nat)
    requires Extends(s, base, start, end)
    ensures |base| < |s| && start < end
  {
    SubsetSize(base, s);
    assert |s| == |base| + |s - base| by { assert s == base + (s - base); }
    var x :| x in s - base;
  }

  lemma {:induction false} ExtensionsComplete(start: nat, end: nat, base: set<nat>, max: nat, s: set<nat>)
      returns (k: nat)
    requires Within(base, 0, start) && Extends(s, base, start, end) && |s| <= max
    ensures k < |Extensions(start, end, base, max)| && Extensions(start, end, base, max)[k] == s
    decreases end - start
  {
    hide Extends, Within;
    ExtendsSize(s, base, start, end);
    TakeOrLeave(s, base, start, end);
    WithinMore(base, start);
    if s == base + {start} {
      k := 0;
    } else if start in s {
      k := ExtensionsComplete(start + 1, end, base + {start}, max, s);
      k := k + 1;
    } else {
      k := ExtensionsComplete(start + 1, end, base, max, s);
      k := k + 1 + |Extensions(start + 1, end, base + {start}, max)|;
    }
  }

  /** No pattern is visited twice. */
  lemma {:induction false} ExtensionsDistinct(start: nat, end: nat, base: set<nat>, max: nat, j: nat, k: nat)
    requires Within(base, 0, start) && j < k < |Extensions(start, end, base, max)|
    ensures Extensions(start, end, base, max)[j] != Extensions(start, end, base, max)[k]
    decreases end - start
  {
    hide Extends, Within, Extensions;
    var all := Extensions(start, end, base, max);
    var taken := |Extensions(start + 1, end, base + {start}, max)|;
    ExtensionsAt(start, end, base, max, j);
    ExtensionsAt(start, end, base, max, k);
    TakeOrLeave(all[j], base, start, end);
    TakeOrLeave(all[k], base, start, end);
    WithinMore(base, start);
    if k <= taken {
      ExtensionsSound(start + 1, end, base + {start}, max, k - 1);
      if j == 0 {
        ExtendsSize(all[k], base + {start}, start + 1, end);
      } else {
        ExtensionsDistinct(start + 1, end, base + {start}, max, j - 1, k - 1);
      }
    } else {
      ExtensionsSound(start + 1, end, base, max, k - 1 - taken);
      if 0 < j <= taken {
        ExtensionsSound(start + 1, end, base + {start}, max, j - 1);
      } else if j > taken {
        ExtensionsDistinct(start + 1, end, base, max, j - 1 - taken, k - 1 - taken);
      }
    }
  }

  lemma ExtensionsSplit(start: nat, end: nat, base: set<nat>, max: nat)
    requires |base| < max && start < end
    ensures Extensions(start, end, base, max) ==
      [base + {start}] + Extensions(start + 1, end, base + {start}, max) + Extensions(start + 1, end, base, max)
  {
  }

  lemma ExtensionsAt(start: nat, end: nat, base: set<nat>, max: nat, k: nat)
    requires k < |Extensions(start, end, base, max)|
    ensures start < end
    ensures var taken := Extensions(start + 1, end, base + {start}, max);
      Extensions(start, end, base, max)[k] ==
        if k == 0 then base + {start}
        else if k <= |taken| then taken[k - 1]
        else Extensions(start + 1, end, base, max)[k - 1 - |taken|]
    ensures |Extensions(start, end, base, max)| ==
        1 + |Extensions(start + 1, end, base + {start}, max)| + |Extensions(start + 1, end, base, max)|
  {
  }

  /** The table is allocated with exactly the room the recursion needs. */
  lemma {:induction false} ExtensionsCount(start: nat, end: nat, base: set<nat>, max: nat)
    requires Within(base, 0, start) && start <= end && |base| <= max
    ensures |Extensions(start, end, base, max)| == Sum(end - start, max - |base|)
    decreases end - start
  {
    hide Within, Extensions, Extends;
    NoExtensions(end, base, max, start);
    if |base| < max && start < end {
      ExtensionsSplit(start, end, base, max);
      TakeOrLeave(base, base, start, end);
      WithinMore(base, start);
      ExtensionsCount(start + 1, end, base + {start}, max);
      ExtensionsCount(start + 1, end, base, max);
      SumPascal(end - start, max - |base|);
    } else if start == end {
      SumOfEmpty(max - |base|);
    }
  }

  lemma NoExtensions(end: nat, base: set<nat>, max: nat, start: nat)
    ensures start >= end || |base| >= max ==> Extensions(start, end, base, max) == []
  {
  }

  lemma WithinUpTo(s: set<nat>, start: nat, i: nat)
    requires Within(s, 0, start) && start <= i
    ensures Within(s, 0, i)
  {
  }
}
