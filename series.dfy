/** Helpers shared by the whole pipeline: an optional value, and the Python
    built-ins `min`, `max` and `sum` over a series of wind samples. */
module Series {

  /** Number of hourly samples the dashboard works with: the fetched list is
      cut to this length and the forecast is padded to it. */
  const Hours: nat := 24

  /** The Python `None` / numeric value of one forecast slot. */
  datatype Option<+T> = None | Some(value: T)

  /** Python `min(s)`: the smallest sample of a non-empty series. */
  function Min(s: seq<real>): (m: real)
    requires |s| > 0
    ensures m in s
    ensures forall i :: 0 <= i < |s| ==> m <= s[i]
  {
    if |s| == 1 then s[0]
    else
      var rest := Min(s[1..]);
      if s[0] <= rest then s[0] else rest
  }

  /** Python `max(s)`: the largest sample of a non-empty series. */
  function Max(s: seq<real>): (m: real)
    requires |s| > 0
    ensures m in s
    ensures forall i :: 0 <= i < |s| ==> s[i] <= m
  {
    if |s| == 1 then s[0]
    else
      var rest := Max(s[1..]);
      if s[0] >= rest then s[0] else rest
  }

  /** Python `sum(s)`, folded from the left as the built-in does; its
      bounds are SumAtLeast, SumAtMost and SumScaledBounds below. */
  function Sum(s: seq<real>): real
  {
    if s == [] then 0.0 else Sum(s[..|s| - 1]) + s[|s| - 1]
  }

  /** All samples of a series are equal. */
  predicate Constant(s: seq<real>)
  {
    forall i, j :: 0 <= i < |s| && 0 <= j < |s| ==> s[i] == s[j]
  }

  /** The minimum and the maximum coincide exactly when the series is constant. */
  lemma MinMaxEqualIffConstant(s: seq<real>)
    requires |s| > 0
    ensures Min(s) == Max(s) <==> Constant(s)
  {
    if Min(s) == Max(s) {
      forall i, j | 0 <= i < |s| && 0 <= j < |s| ensures s[i] == s[j] {
        assert Min(s) <= s[i] <= Max(s);
        assert Min(s) <= s[j] <= Max(s);
      }
    }
    if Constant(s) {
      var a :| 0 <= a < |s| && s[a] == Min(s);
      var b :| 0 <= b < |s| && s[b] == Max(s);
      assert s[a] == s[b];
    }
  }

  /** `n` copies of `x` added up: `n * x` written as repeated addition, which
      keeps the induction over a sum linear. */
  function Times(n: nat, x: real): real
  {
    if n == 0 then 0.0 else Times(n - 1, x) + x
  }

  /** Repeated addition is multiplication. */
  lemma {:induction false} TimesIsProduct(n: nat, x: real)
    ensures Times(n, x) == (n as real) * x
  {
    if n > 0 {
      TimesIsProduct(n - 1, x);
      assert ((n - 1) as real) * x + x == (n as real) * x;
    }
  }

  /** A sum is at least |s| copies of any lower bound of its samples. */
  lemma {:induction false} SumAtLeast(s: seq<real>, lo: real)
    requires forall i :: 0 <= i < |s| ==> lo <= s[i]
    ensures Times(|s|, lo) <= Sum(s)
  {
    if s != [] {
      SumAtLeast(s[..|s| - 1], lo);
    }
  }

  /** A sum is at most |s| copies of any upper bound of its samples. */
  lemma {:induction false} SumAtMost(s: seq<real>, hi: real)
    requires forall i :: 0 <= i < |s| ==> s[i] <= hi
    ensures Sum(s) <= Times(|s|, hi)
  {
    if s != [] {
      SumAtMost(s[..|s| - 1], hi);
    }
  }

  /** A sum lies between |s| times any lower and |s| times any upper bound of its samples. */
  lemma SumScaledBounds(s: seq<real>, lo: real, hi: real)
    requires forall i :: 0 <= i < |s| ==> lo <= s[i] <= hi
    ensures (|s| as real) * lo <= Sum(s) <= (|s| as real) * hi
  {
    SumAtLeast(s, lo);
    SumAtMost(s, hi);
    TimesIsProduct(|s|, lo);
    TimesIsProduct(|s|, hi);
  }

  /** The sum of a one-sample series is that sample. */
  lemma SumSingleton(x: real)
    ensures Sum([x]) == x
  {
    assert [x][..0] == [];
  }
}
